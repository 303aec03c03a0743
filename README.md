# openai-project core, modelled in Dafny

This project models the deterministic core of a small chat service. The
service has a Flask back end over SQLite and a Vue front end. The model covers:

- **The store** (`SqliteLog`, over the generic tables of `Tables`). Every table is a
  sequence of rows with ids in rowid order, and each unique index of the schema is an
  invariant. The store covers:
  - the per-address trial counter (get-or-create, increment, check);
  - the dialog table with INSERT OR REPLACE on (username, chattype, dialog_name);
  - the user-scoped list, get, delete and rename of dialogs;
  - the conjunctive model-metadata filter;
  - the grouping of valid system-prompt presets.

  `SqliteLog.Database` is a class whose methods reassign its table fields.
- **The admin API** (`ServerAdmin`). The handlers take a request form (a map from
  field names to text) and act on a `Database`:
  - the admin gate and the 'true'/'1'/'yes' boolean convention;
  - the field defaults and the strip rules;
  - partial patches that validate before `save()`;
  - the three-way priority of the test-limit reset;
  - soft and hard user delete, and the username check on rename;
  - the notification validations.
- **The archival script** (`ArchiveLogs`). Dialogs started before a cutoff (today minus
  eight days) and all logs are copied into a backup database, then deleted from the main
  one. `ArchiveManager` holds the two databases.
- **The seeding and migration scripts** (`InitModelMeta`, `InitUserData`):
  - the shape normalisation of the fetched model catalogue;
  - the insert-if-absent loop with its skip rules;
  - the line/comma/colon parser of the users setting, where the last entry wins;
  - the skip-and-count migration loop.
- **The upload and dialog checks of the chat server** (`Server`): `allowed_file`, the
  upload preconditions, and the user/model whitelist with the `dialog_mode` gate.
- **The front end**:
  - the expiring credential store (`Auth.AuthStore`, with localStorage as a map and the
    clock as a parameter `now`);
  - the navigation guard (`Router`);
  - the version check and `addVersionParam` (`Version`);
  - the chat message list (`UseChat.ChatState`);
  - the code-block rewriter with its entity decoder (`Highlight`, with highlight.js as
    three uninterpreted functions).

`Common` holds the Python and JavaScript string semantics the core relies on:

- `str.strip()` and `String.prototype.trim()`, each with its own whitespace set;
- ASCII `lower()`;
- `split` on one character, with its inverse `Join`;
- Python's `int()` on text with ASCII digits (`Common.ParsePyInt`: blanks around, an optional sign,
  single underscores between digits), which is `None` where Python raises `ValueError`.

Stateful code is modelled as classes and methods with loops where the source works step
by step. Each such method is proved against a specification function, and the properties
of that function are proved as lemmas. Queries and checks that only compute a value are
functions.

A few behaviours come from the code as written and are easy to miss:

- `model_meta_create` runs `int()` on `model_type` before it looks at the name. So a
  request without `model_type` fails as a whole (`ServerAdmin.ModelMetaCreate`).
- The built-in model catalogue is keyed by `model_name`, not by `id`. So seeding from it
  adds nothing (`InitModelMeta.DefaultsAddNothing`).
- The navigation guard never reads expiry. So a login whose week has passed still opens
  `/chat` (`Router.ExpiredLoginStillRoutes`).
- `isAdmin` is the predicate `Auth.AuthStore.IsAdmin`. It holds exactly when the role ref
  is 'admin'. `Login` and `Logout` state how it changes.

## Model

| member | source | states |
|---|---|---|
| Tables.Insert | cyf/project/server/sqlitelog.py:121-122 | An insert without id keeps every row and appends the new data last, with an id above every id in the table |
| Tables.Where | cyf/project/server/sqlitelog.py:149-151 | A filtered query or delete keeps exactly the rows the condition accepts (a row is in the result iff it is in the table and accepted) |
| Tables.WherePartition | cyf/project/server/archive_logs.py:91-108 | A condition and its complement split the table: their row counts add up to the table's |
| Tables.InsertKeepsUnique | cyf/project/server/sqlitelog.py:44-46 | Inserting a row whose key no row holds keeps rowid order and the unique index |
| Tables.SetDataKeepsUnique | cyf/project/server/server_admin.py:373-389 | Changing one row keeps the unique index when no other row carries its new key |
| Tables.IndexOfIdAt | cyf/project/server/server_admin.py:155-167 | In rowid order a fetched row's id leads `save()` back to the same row |
| Tables.RemoveIdFacts | cyf/project/server/server_admin.py:186-187 | `delete_instance` removes exactly one row when the id is present and none otherwise, keeping order and every unique index |
| Common.StripBothEnds | cyf/project/server/init/init_user_data.py:32 | `strip()` gives the empty text exactly when the text is all whitespace, and otherwise a text with no whitespace at either end |
| Common.PyStripPadded | cyf/project/server/server_admin.py:73-74 | `strip()` takes off exactly the whitespace put around an already stripped text |
| Common.JoinSplit | cyf/project/server/init/init_user_data.py:32 | `split` on one character loses nothing: joining the parts with the separator gives the text back |
| Common.SplitPartsFree | cyf/project/server/init/init_user_data.py:36 | No part of a split contains the separator |
| Common.SplitWithoutSep | cyf/project/server/init/init_user_data.py:36 | A text without the separator splits into itself alone |
| Common.ParsePyIntOfNatToString | cyf/project/server/server_admin.py:155 | `int()` reads back every decimal rendering of a natural number |
| SqliteLog.FindIp | cyf/project/server/sqlitelog.py:99-105 | The row of an address is found iff one exists, and it is the first such row |
| SqliteLog.GetOrCreateLimit | cyf/project/server/sqlitelog.py:99-105 | get_or_create yields a table and a position holding a row of the requested address |
| SqliteLog.GetOrCreateFacts | cyf/project/server/sqlitelog.py:99-105 | An existing row is returned and the table left alone, and the default never overwrites its limit; a missing one is appended with count 0 and the default limit |
| SqliteLog.GetOrCreateKeepsUnique | cyf/project/server/sqlitelog.py:89-91 | get_or_create never adds a second row for an address and keeps rowid order |
| SqliteLog.IncrementLimitFacts | cyf/project/server/sqlitelog.py:108-113 | increment_test_limit raises that address's count by exactly one and returns (new count, limit); other addresses' rows are unchanged, and a row is added only for a new address |
| SqliteLog.SavedRecordPosition | cyf/project/server/sqlitelog.py:110-112 | `save()` by id updates the very row get_or_create returned |
| SqliteLog.LimitExceeded | cyf/project/server/sqlitelog.py:116-119 | The check answers count >= limit and changes neither the count nor the limit |
| SqliteLog.Increments | cyf/project/server/sqlitelog.py:108-113 | n increments raise the count by exactly n and keep the limit |
| SqliteLog.FreshAddressExceeded | cyf/project/server/sqlitelog.py:99-119 | A new address is refused exactly once it has been counted default-limit times |
| SqliteLog.ReplaceDialogFacts | cyf/project/server/sqlitelog.py:32-34 | After set_dialog exactly one row carries the key, with the new model, context and date; rows with other keys are unchanged; the table grows only for a new key |
| SqliteLog.ReplaceDialogKeepsIndexes | cyf/project/server/sqlitelog.py:32-34 | set_dialog keeps rowid order and the unique (username, chattype, dialog_name) index |
| SqliteLog.GetDialogList | cyf/project/server/sqlitelog.py:128-135 | The list holds exactly the user's dialogs from the date on, as summaries of table rows |
| SqliteLog.GetDialogListIdsAbove | cyf/project/server/sqlitelog.py:128-135 | The list's ids are table ids: any bound below every id of the table is below every id in the list |
| SqliteLog.GetDialogListDescending | cyf/project/server/sqlitelog.py:131 | The list is in strictly descending id order |
| SqliteLog.GetDialogContext | cyf/project/server/sqlitelog.py:137-142 | A dialog is returned only to its owner; another user's id gives nothing |
| SqliteLog.DeleteUserDialogs | cyf/project/server/sqlitelog.py:145-152 | An empty id list deletes nothing and returns 0; otherwise exactly the user's rows with a listed id go, and the count is the number removed |
| SqliteLog.DeleteUserDialogsFacts | cyf/project/server/sqlitelog.py:145-152 | The returned count is the number of the user's rows with a listed id, and other users' rows survive even when their ids are listed |
| SqliteLog.FindOwned | cyf/project/server/sqlitelog.py:158-160 | The position of the row matching both user and id, found iff one exists |
| SqliteLog.RenameDialog | cyf/project/server/sqlitelog.py:155-165 | Only the dialog name of the row matching user and id changes; the result is true iff such a row exists and the new key is free, and the table is unchanged otherwise |
| SqliteLog.RenameDialogKeepsUnique | cyf/project/server/sqlitelog.py:32-34 | A rename keeps rowid order and the unique dialog key |
| SqliteLog.GetModelMetaList | cyf/project/server/sqlitelog.py:168-192 | A row is listed iff it passes every filter that was given; absent filters accept everything |
| SqliteLog.ModelListUnfiltered | cyf/project/server/sqlitelog.py:176-192 | Without filters the whole table is returned in rowid order |
| SqliteLog.GroupOrderFacts | cyf/project/server/sqlitelog.py:210-230 | The group order lists each group of a valid preset, and only those, exactly once |
| SqliteLog.GroupMembersFacts | cyf/project/server/sqlitelog.py:216-228 | A group holds exactly the views of its valid presets and is empty iff it has none |
| SqliteLog.InvalidPresetSkipped | cyf/project/server/sqlitelog.py:214 | An invalid preset leaves the dictionary as it was |
| SqliteLog.PresetJoinsGroup | cyf/project/server/sqlitelog.py:223-227 | A valid preset of an open group is appended to that group |
| SqliteLog.PresetOpensGroup | cyf/project/server/sqlitelog.py:219-227 | A valid preset of a new group opens it at the end of the key order, holding its view alone |
| SqliteLog.UnseenGroupEmpty | cyf/project/server/sqlitelog.py:219-220 | A group not seen yet has no members yet |
| SqliteLog.Database.constructor | cyf/project/server/sqlitelog.py:93-96 | A fresh database has every table empty and every invariant |
| SqliteLog.Database.GetOrCreateTestLimit | cyf/project/server/sqlitelog.py:99-105 | get_or_create_test_limit as GetOrCreateLimit, keeping the indexes |
| SqliteLog.Database.SaveTestLimit | cyf/project/server/sqlitelog.py:112 | `save()` updates the row with the record's id and nothing else |
| SqliteLog.Database.IncrementTestLimit | cyf/project/server/sqlitelog.py:108-113 | The new table and the returned (count, limit) are IncrementLimit of the old table, and the indexes are kept |
| SqliteLog.Database.CheckTestLimitExceeded | cyf/project/server/sqlitelog.py:116-119 | The check as LimitExceeded, keeping the indexes |
| SqliteLog.Database.SetLog | cyf/project/server/sqlitelog.py:121-122 | set_log appends one usage row |
| SqliteLog.Database.SetDialog | cyf/project/server/sqlitelog.py:124-126 | set_dialog as ReplaceDialog with today's date, keeping the indexes |
| SqliteLog.Database.DeleteDialogs | cyf/project/server/sqlitelog.py:145-152 | delete_dialogs as DeleteUserDialogs, returning the deleted count |
| SqliteLog.Database.UpdateDialogTitle | cyf/project/server/sqlitelog.py:155-165 | update_dialog_title as RenameDialog, returning whether a row changed |
| SqliteLog.Database.GetSystemPromptsByGroup | cyf/project/server/sqlitelog.py:210-230 | The loop builds exactly the grouping: keys in order of first occurrence, each group holding its valid presets' three fields in rowid order |
| ServerAdmin.FormBoolExamples | cyf/project/server/server_admin.py:94-96 | The convention ignores case but not blanks: 'TRUE', 'Yes' and '1' are true; ' true', 'on', 'false' and '' are not |
| ServerAdmin.AdminGate | cyf/project/server/server_admin.py:68-80 | The gate passes iff the stripped user and password verify for the role admin; otherwise it fails with AuthFailed carrying the checker's message |
| ServerAdmin.AdminGateIgnoresBlanks | cyf/project/server/server_admin.py:72-76 | Blanks a client puts around a stripped name and password do not change the gate's verdict, because the decorator strips both before the check |
| ServerAdmin.RequestId | cyf/project/server/server_admin.py:151-155 | A missing or empty id is refused before int() runs; text int() refuses fails the handler; otherwise the id is int() of the text |
| ServerAdmin.RequestIdOfDecimal | cyf/project/server/server_admin.py:151-155 | An id sent as decimal text is read back as that id |
| ServerAdmin.Locate | cyf/project/server/server_admin.py:155 | get_by_id finds the row with the requested id, or reports the missing field, the unreadable id or the missing row |
| ServerAdmin.GetById | cyf/project/server/server_admin.py:104-114 | A get handler returns the row with the route's id, and fails iff no row has it |
| ServerAdmin.NewestFirst | cyf/project/server/server_admin.py:318-319 | ORDER BY id DESC reverses a table in rowid order into strictly descending ids |
| ServerAdmin.DeleteById | cyf/project/server/server_admin.py:176-192 | A delete succeeds iff the row is located and then removes that id; a failed delete changes nothing |
| ServerAdmin.DeleteByIdRemovesOne | cyf/project/server/server_admin.py:186-187 | A successful delete removes exactly the row with the requested id and keeps the indexes |
| ServerAdmin.ModelMetaList | cyf/project/server/server_admin.py:89-99 | A row is listed iff it passes the given recommend and status_valid filters under the boolean convention |
| ServerAdmin.NewModelMeta | cyf/project/server/server_admin.py:122-138 | The new row has the stripped name; model_desc is the sent text or empty; recommend holds iff it is sent and reads as true; status_valid holds iff it is not sent or reads as true |
| ServerAdmin.PatchModelMetaFacts | cyf/project/server/server_admin.py:158-165 | A request naming no field leaves the row unchanged, and applying the same patch twice equals applying it once |
| ServerAdmin.ModelMetaCreate | cyf/project/server/server_admin.py:116-143 | An unreadable model_type fails the request; then an empty name or a taken name is refused; otherwise exactly the new row is inserted. A refused request changes nothing |
| ServerAdmin.AdminModelMetaCreate | cyf/project/server/server_admin.py:68-143 | The route behind require_admin_auth: a refused request gets the gate's error and leaves the table as it was; an admitted one has exactly ModelMetaCreate's result and new table |
| ServerAdmin.ModelMetaUpdate | cyf/project/server/server_admin.py:145-174 | Only the named fields change; a name another row holds is refused and nothing is saved |
| ServerAdmin.ModelMetaDelete | cyf/project/server/server_admin.py:176-192 | The delete handler as DeleteById, keeping the indexes |
| ServerAdmin.SystemPromptListAsWritten | cyf/project/server/server_admin.py:209-219 | The handler as written succeeds only when no preset matches the filters |
| ServerAdmin.SystemPromptList | cyf/project/server/server_admin.py:195-217 | As intended: a preset is listed iff it passes the non-empty role_group filter and the status_valid filter |
| ServerAdmin.SystemPromptListAgreesOnlyWhenEmpty | cyf/project/server/server_admin.py:216 | The written handler agrees with the intended one iff no preset matches |
| ServerAdmin.SystemPromptListCounterexample | cyf/project/server/server_admin.py:216 | One valid preset and no filter: the written handler fails and the intended one lists it |
| ServerAdmin.NewSystemPrompt | cyf/project/server/server_admin.py:238-254 | The new preset has the stripped name and group; role_desc and role_content are the sent texts or empty; status_valid holds iff it is not sent or reads as true |
| ServerAdmin.SystemPromptCreate | cyf/project/server/server_admin.py:233-259 | A blank name or group is refused; so is a (name, group) pair already held; otherwise exactly the new row is inserted |
| ServerAdmin.SystemPromptUpdate | cyf/project/server/server_admin.py:261-292 | Only the named fields change; a (name, group) pair another row holds is refused and nothing is saved |
| ServerAdmin.SystemPromptDelete | cyf/project/server/server_admin.py:294-310 | The delete handler as DeleteById, keeping the indexes |
| ServerAdmin.NumberFieldOfDecimal | cyf/project/server/server_admin.py:347-348 | A count or limit sent as the decimal text of a number is read as that number, whatever the default |
| ServerAdmin.TestLimitCreate | cyf/project/server/server_admin.py:336-361 | An empty ip is refused; so are non-numeric counts and an ip that already has a row; otherwise the new row gets the given or default count and limit |
| ServerAdmin.TestLimitCreateDefaults | cyf/project/server/server_admin.py:347-348 | Without user_count and limit the new counter starts at 0 of 20 |
| ServerAdmin.PatchTestLimit | cyf/project/server/server_admin.py:375-387 | The patch fails iff a sent count or limit is not a number; otherwise a sent user_ip is stripped, a sent user_count or limit takes the number int() reads, and an unsent field keeps its value |
| ServerAdmin.TestLimitUpdate | cyf/project/server/server_admin.py:363-396 | A numeric failure returns before save() and the stored row is unchanged; a taken ip is refused; otherwise only the sent fields change |
| ServerAdmin.TestLimitDelete | cyf/project/server/server_admin.py:398-414 | The delete handler as DeleteById, keeping the indexes |
| ServerAdmin.ZeroCounts | cyf/project/server/server_admin.py:428 | A bulk reset zeroes the count of exactly the selected rows and keeps every id, ip and limit |
| ServerAdmin.ZeroCountsKeepsUnique | cyf/project/server/server_admin.py:89-91 | Zeroing counts keeps rowid order and the one-row-per-ip index |
| ServerAdmin.TestLimitReset | cyf/project/server/server_admin.py:416-448 | reset_all zeroes every count and reports how many rows; otherwise an id resets that row; otherwise an ip resets its rows, and an unknown ip is an error; with none of them the request is refused. Every refusal changes nothing |
| ServerAdmin.UserList | cyf/project/server/server_admin.py:451-460 | Every user is listed as a view, newest id first |
| ServerAdmin.UserCreate | cyf/project/server/server_admin.py:474-505 | A blank name or password is refused; so is a taken name; a create_user that raises gives the generic failure and stores nothing; otherwise the created account, with role and is_active overrides, is inserted |
| ServerAdmin.PatchUser | cyf/project/server/server_admin.py:527-543 | The password is rehashed only for a non-blank new password; the api key, role and is_active change only when sent, to the stripped key, the sent role and the boolean convention; updated_at is always set |
| ServerAdmin.RenameFree | cyf/project/server/server_admin.py:520-525 | A name that is the row's own or held by no row is held by no other row |
| ServerAdmin.UserUpdate | cyf/project/server/server_admin.py:507-549 | A rename to a name another user holds is refused before anything is saved; otherwise the patched row replaces the old one |
| ServerAdmin.UserDelete | cyf/project/server/server_admin.py:551-578 | By default the row stays, marked inactive with updated_at set; with hard_delete it is removed; a missing row is an error that changes nothing |
| ServerAdmin.NewPriority | cyf/project/server/server_admin.py:646-649 | A non-numeric or absent priority becomes 0 |
| ServerAdmin.NewStatus | cyf/project/server/server_admin.py:652-654 | The status is active or inactive, and inactive iff the stripped field says so |
| ServerAdmin.NotificationCreate | cyf/project/server/server_admin.py:633-664 | A blank title or content is refused; otherwise the stripped texts go with the normalised priority and status |
| ServerAdmin.PatchChecks | cyf/project/server/server_admin.py:683-693 | A bad priority is reported first, then a status outside active/inactive |
| ServerAdmin.NotificationUpdate | cyf/project/server/server_admin.py:666-698 | A missing id, a bad priority or a bad status is refused first; with those checks passed, a patch without fields gives NothingToUpdate, and one with fields is accepted iff int() reads the id; an accepted patch carries exactly the sent fields |
| ServerAdmin.NotificationUpdateStatus | cyf/project/server/server_admin.py:688-693 | An accepted patch never carries a status other than active or inactive |
| ServerAdmin.NotificationUpdateReply | cyf/project/server/server_admin.py:698-703 | A validated patch succeeds iff the store reports it applied |
| ServerAdmin.NotificationDelete | cyf/project/server/server_admin.py:711-723 | The delete succeeds iff the id is readable and the store reports a deletion |
| ArchiveLogs.InsertAllKeeps | cyf/project/server/archive_logs.py:99-105 | Copying into the backup keeps its rows as a prefix, adds one row per value and keeps rowid order |
| ArchiveLogs.InsertAllContents | cyf/project/server/archive_logs.py:99-105 | The backup's values become its old values followed by exactly the copied ones |
| ArchiveLogs.InsertAllKeepsUnique | cyf/project/server/archive_logs.py:99-105 | Copying values with pairwise distinct keys that no row holds keeps the table's unique index and rowid order |
| ArchiveLogs.ArchiveSplit | cyf/project/server/archive_logs.py:91-108 | Every dialog is on exactly one side of the cutoff, and the two sides add up to the table |
| ArchiveLogs.KeepsLastEightDays | cyf/project/server/archive_logs.py:178 | With the cutoff of main(), a dialog stays iff it started within the last eight days |
| ArchiveLogs.NothingToArchive | cyf/project/server/archive_logs.py:94 | Without candidates the dialog table is kept whole |
| ArchiveLogs.ArchiveManager.constructor | cyf/project/server/archive_logs.py:43-51 | The manager holds the two distinct databases |
| ArchiveLogs.ArchiveManager.CreateBackupDatabase | cyf/project/server/archive_logs.py:53-82 | The backup's dialog and log tables start empty |
| ArchiveLogs.ArchiveManager.ArchiveDialogs | cyf/project/server/archive_logs.py:90-109 | The old dialogs are appended to the backup in order, the main table keeps exactly the rest, and the count is their number |
| ArchiveLogs.ArchiveManager.ArchiveAllLogs | cyf/project/server/archive_logs.py:111-130 | Every log is appended to the backup, the main log table ends empty, and the count is their number |
| ArchiveLogs.ArchiveManager.ArchiveOldData | cyf/project/server/archive_logs.py:84-136 | Both moves, returning (archived logs, archived dialogs) |
| ArchiveLogs.ArchiveManager.Run | cyf/project/server/archive_logs.py:173-214 | The backup is recreated empty; then, with the cutoff today minus 8, the main table keeps exactly the recent dialogs, the backup holds exactly the old ones and every log, its dialog index holds, and the counts add up |
| InitModelMeta.DefaultEntry | cyf/project/server/init/init_model_meta.py:48-53 | A built-in entry is an object without an `id` key |
| InitModelMeta.DefaultModels | cyf/project/server/init/init_model_meta.py:43-96 | The built-in catalogue has eight entries, none with an `id` key |
| InitModelMeta.NormalizeShape | cyf/project/server/init/init_model_meta.py:109-120 | A list is kept; an object yields its `models` list, else its `data` list; anything else ends as the defaults |
| InitModelMeta.StepWithoutId | cyf/project/server/init/init_model_meta.py:132-134 | An entry without `id` is skipped |
| InitModelMeta.StepBlankId | cyf/project/server/init/init_model_meta.py:136-139 | An entry whose `id` strips to nothing is skipped |
| InitModelMeta.StepNullDesc | cyf/project/server/init/init_model_meta.py:141-162 | An entry with a null `desc_zh` is not inserted |
| InitModelMeta.StepAdds | cyf/project/server/init/init_model_meta.py:136-159 | An inserted row has the stripped id as a name not yet in the table, the default description, recommend false and status_valid true when those keys are missing |
| InitModelMeta.SeedKeepsRows | cyf/project/server/init/init_model_meta.py:146-162 | Seeding never changes an existing row and adds exactly `added` rows |
| InitModelMeta.SeedKeepsUnique | cyf/project/server/init/init_model_meta.py:146-159 | Seeding keeps the unique model name, so a repeated id is skipped and not counted |
| InitModelMeta.SeedInvStep | cyf/project/server/init/init_model_meta.py:130-162 | One pass of the loop keeps its invariant, or ends the run when the entry raises |
| InitModelMeta.SeedInvEnds | cyf/project/server/init/init_model_meta.py:127-164 | The loop's invariant holds at the start, and at the end it gives the seeding function |
| InitModelMeta.SeedWithoutIds | cyf/project/server/init/init_model_meta.py:132-134 | Entries without `id` add nothing and raise nothing |
| InitModelMeta.DefaultsAddNothing | cyf/project/server/init/init_model_meta.py:47-96 | Seeding from the built-in catalogue adds nothing |
| InitModelMeta.NormalizeModelsData | cyf/project/server/init/init_model_meta.py:109-120 | The reassignments of `models_data` compute Normalize |
| InitModelMeta.InitModelMetaData | cyf/project/server/init/init_model_meta.py:99-168 | The loop's table, added count and raise flag are those of Seed over the normalised catalogue |
| InitUserData.Lookup | cyf/project/server/init/init_user_data.py:51 | A name is found iff some entry has it |
| InitUserData.PutFacts | cyf/project/server/init/init_user_data.py:51 | Assignment maps the name to the new value, keeps every other name's value, and never duplicates a key |
| InitUserData.NonBlankLines | cyf/project/server/init/init_user_data.py:32 | The comprehension keeps at most as many lines as it gets |
| InitUserData.NonBlankLinesOne | cyf/project/server/init/init_user_data.py:32 | One line is kept, stripped, iff it is not blank |
| InitUserData.NonBlankLinesAppend | cyf/project/server/init/init_user_data.py:32 | The filter works line by line: on joined lists it gives the joined results, in order |
| InitUserData.NonBlankLinesKeeps | cyf/project/server/init/init_user_data.py:32 | No line is lost: every non-blank line is kept, stripped, right after the lines kept before it |
| InitUserData.NonBlankLinesStripped | cyf/project/server/init/init_user_data.py:32 | Every kept line is non-empty and stripped |
| InitUserData.LineItemsIsSplit | cyf/project/server/init/init_user_data.py:36 | Splitting only lines with a comma is the same as splitting every line |
| InitUserData.SplitTwice | cyf/project/server/init/init_user_data.py:40 | split(':', 2) gives one to three parts, one iff there is no colon, and the first two parts are colon-free |
| InitUserData.SplitTwiceJoin | cyf/project/server/init/init_user_data.py:40 | The parts joined with ':' give the item back |
| InitUserData.ItemEntryFacts | cyf/project/server/init/init_user_data.py:40-54 | A blank item gives nothing; a colon-free one is a bare name with an empty password and the default key; otherwise the name and password are the stripped first two parts, and the key is the default exactly when the third part is missing, blank or the default itself |
| InitUserData.PutLinesIsPutItems | cyf/project/server/init/init_user_data.py:34-38 | The nested loops are one loop over all items in reading order |
| InitUserData.PutItemsAppend | cyf/project/server/init/init_user_data.py:38 | The item loop over two lists is the loop over the first, then over the second |
| InitUserData.LastEntryWins | cyf/project/server/init/init_user_data.py:51-54 | When no later item names the same user, an item's password and key are what the dictionary holds |
| InitUserData.PutItemsDistinct | cyf/project/server/init/init_user_data.py:51-54 | The dictionary never holds a username twice |
| InitUserData.ParseUsersDistinct | cyf/project/server/init/init_user_data.py:16-57 | The parsed dictionary holds every username once |
| InitUserData.AddLineItems | cyf/project/server/init/init_user_data.py:38-54 | The item loop puts the items of a line in order |
| InitUserData.ParseUsersFromConfig | cyf/project/server/init/init_user_data.py:16-57 | The loops compute ParseUsers, with distinct names |
| InitUserData.AddLines | cyf/project/server/init/init_user_data.py:34-54 | The line loop computes PutLines over the user lines |
| InitUserData.MigrateFacts | cyf/project/server/init/init_user_data.py:72-88 | Whatever the lookup finds, migration only appends rows, one per migrated account; it keeps the unique username, and migrated + skipped never exceeds the number of entries |
| InitUserData.ExistingSkipped | cyf/project/server/init/init_user_data.py:74-78 | A name get_user_by_username finds is skipped and counted, and adds no row |
| InitUserData.MissedNameRefused | cyf/project/server/init/init_user_data.py:81-88 | A held name the lookup misses reaches create_user, whose row the unique username refuses; the exception is caught and nothing is counted or added |
| InitUserData.MigrateUsersToDb | cyf/project/server/init/init_user_data.py:60-88 | The loop's table and counts are Migrate's, and migrated + skipped is at most the number of entries |
| Server.AfterLastDot | cyf/project/server/server.py:28 | rsplit('.', 1)[1] is the dot-free tail after the last dot |
| Server.AllowedFileTail | cyf/project/server/server.py:27-28 | For the last dot, a file is allowed iff the lowercased text after it is an allowed extension |
| Server.AllowedDotOnly | cyf/project/server/server.py:14-28 | ".png" is allowed |
| Server.RefusedCompound | cyf/project/server/server.py:14-28 | "a.tar.gz" is refused |
| Server.RefusedWithoutDot | cyf/project/server/server.py:27-28 | "png" is refused |
| Server.AllowedUpperCase | cyf/project/server/server.py:28 | "photo.JPG" is allowed |
| Server.UploadFacts | cyf/project/server/server.py:54-69 | A file is saved iff present, named, at most 20 MiB and allowed; a missing part or name is answered first, then size, then type |
| Server.UploadLimitEdge | cyf/project/server/server.py:59-60 | Exactly 20 MiB passes and one byte more does not |
| Server.DialogGateFacts | cyf/project/server/server.py:78-93 | The whitelist is checked first; a listed request passes iff its mode is absent, 'single' or 'multi', and an absent mode means single |
| Auth.ExpiryRule | cyf/project/fe/src/stores/auth.ts:6-35 | A stored item reads back until now + one week inclusive and is removed on the first read after that; an item without expiry never expires |
| Auth.AfterGetOther | cyf/project/fe/src/stores/auth.ts:6-25 | Reading one key never changes what another key reads, and reads of two keys commute |
| Auth.LoginValidForAWeek | cyf/project/fe/src/stores/auth.ts:28-48 | After login the credentials authenticate iff the week has not passed and both are non-empty; the role is the given one or 'user' |
| Auth.LogoutForgets | cyf/project/fe/src/stores/auth.ts:50-57 | After logout nothing authenticates |
| Auth.AuthStore.constructor | cyf/project/fe/src/stores/auth.ts:37-39 | Each ref starts from the stored value of its key |
| Auth.AuthStore.GetStoredValue | cyf/project/fe/src/stores/auth.ts:6-25 | Returns the stored value, or nothing for a missing, expired or non-object entry, and removes an expired entry |
| Auth.AuthStore.SetStoredValue | cyf/project/fe/src/stores/auth.ts:28-35 | Stores the value with expiry now + one week |
| Auth.AuthStore.Login | cyf/project/fe/src/stores/auth.ts:41-48 | Sets and stores user, password and role, the role defaulting to 'user'; afterwards `isAdmin` holds iff the given role is 'admin' |
| Auth.AuthStore.Logout | cyf/project/fe/src/stores/auth.ts:50-57 | Clears the three refs and removes the three keys; afterwards `isAdmin` is false |
| Auth.AuthStore.IsAuthenticated | cyf/project/fe/src/stores/auth.ts:59-84 | True iff the stored user and password are both present, unexpired and non-empty; expired items are removed; false clears the refs, true syncs them with storage |
| Auth.AuthStore.GetCredentials | cyf/project/fe/src/stores/auth.ts:90-112 | An all-null triple with cleared refs when the stored credentials do not authenticate; otherwise the stored triple, refs untouched |
| Router.GuardFacts | cyf/project/fe/src/router/index.ts:7-67 | For the record a path matches (ignoring case and one trailing '/'): the admin route sends a non-admin to /chat first; a protected route without credentials goes to /login; the path '/login' as spelled, with credentials, goes to /chat; everything else proceeds |
| Router.SpellingsReachRecord | cyf/project/fe/src/router/index.ts:7-32 | A path that is '/chat' or '/admin' in another case, or with a trailing '/', gets the same decision as the record's own path |
| Router.AdminSpellings | cyf/project/fe/src/router/index.ts:25-58 | '/Admin' and '/admin/' send a non-admin to /chat |
| Router.ChatSpellings | cyf/project/fe/src/router/index.ts:19-61 | '/CHAT' and '/chat/' send a visitor without credentials to /login |
| Router.LoginComparedAsSpelled | cyf/project/fe/src/router/index.ts:62-65 | With credentials '/login' goes to /chat, but '/Login' proceeds, as the check compares the path as spelled |
| Router.RootIsLogin | cyf/project/fe/src/router/index.ts:11-12 | '/' is guarded as '/login' |
| Router.ExpiryIgnored | cyf/project/fe/src/router/index.ts:36-37 | No decision depends on expiry |
| Router.ExpiredLoginStillRoutes | cyf/project/fe/src/router/index.ts:36-66 | An expired login still opens /chat and bounces /login, although the store no longer authenticates |
| Router.RawRoleIsNotAdmin | cyf/project/fe/src/router/index.ts:40-49 | A role that is not a JSON object leaves the role null, so admin routes stay closed |
| Router.NonAdminChain | cyf/project/fe/src/router/index.ts:55-61 | A non-admin's way to /admin ends on /chat when logged in, else on /login |
| Router.LoginLogoutRoutes | cyf/project/fe/src/router/index.ts:55-66 | After an admin login /admin opens; after logout every protected page leads to /login |
| Version.FirstVisit | cyf/project/fe/src/services/version.ts:33-37 | With no stored version the build is recorded and nothing is cleared |
| Version.VersionChanged | cyf/project/fe/src/services/version.ts:26-32 | Another stored version clears the caches and records the build |
| Version.SnapshotRebuilt | cyf/project/fe/src/services/version.ts:26 | A -SNAPSHOT rebuilt at another time clears and records with equal versions |
| Version.ClearsExactlyWhenOutdated | cyf/project/fe/src/services/version.ts:26-37 | Caches are cleared iff a stored version is outdated; a stored release version equal to the running one leaves storage unchanged |
| Version.VersionCheckSettles | cyf/project/fe/src/services/version.ts:20-38 | A second check with the same build clears nothing and changes nothing |
| Version.AddVersionParamShape | cyf/project/fe/src/services/version.ts:57-61 | The url is a prefix, followed by '&' if it has a '?' and '?' otherwise, then 'v=' and the version |
| Version.VersionService.CheckAndHandleVersionChange | cyf/project/fe/src/services/version.ts:20-38 | The new storage and the clear count are VersionCheck's |
| UseChat.EditedFacts | cyf/project/fe/src/composables/useChat.ts:22-38 | An edit changes only its own field of its own message, and nothing for an index with no element |
| UseChat.EditsCommute | cyf/project/fe/src/composables/useChat.ts:22-38 | Repeating an edit changes nothing more; edits of different messages commute |
| UseChat.SentFacts | cyf/project/fe/src/composables/useChat.ts:64-81 | Sending appends exactly the user message and an empty loading assistant message at old length + 1 |
| UseChat.ChatState.constructor | cyf/project/fe/src/composables/useChat.ts:9-15 | The state starts empty, not loading, with no title and no dialog |
| UseChat.ChatState.AddMessage | cyf/project/fe/src/composables/useChat.ts:18-20 | Appends the message at the end |
| UseChat.ChatState.UpdateMessage | cyf/project/fe/src/composables/useChat.ts:22-26 | The content edit as Edited |
| UseChat.ChatState.SetLoadingAt | cyf/project/fe/src/composables/useChat.ts:28-32 | The loading edit as Edited |
| UseChat.ChatState.SetErrorAt | cyf/project/fe/src/composables/useChat.ts:34-38 | The error edit as Edited |
| UseChat.ChatState.SetDialogTitle | cyf/project/fe/src/composables/useChat.ts:41-43 | Sets only the title |
| UseChat.ChatState.SetCurrentDialogId | cyf/project/fe/src/composables/useChat.ts:45-47 | Sets only the dialog id |
| UseChat.ChatState.ClearMessages | cyf/project/fe/src/composables/useChat.ts:49-51 | Empties the list |
| UseChat.ChatState.ClearCurrentSession | cyf/project/fe/src/composables/useChat.ts:53-57 | Empties the list and resets the title and the dialog id |
| UseChat.ChatState.SendMessage | cyf/project/fe/src/composables/useChat.ts:60-81 | A blank message changes nothing; otherwise the list becomes Sent and loading is raised |
| Highlight.FirstAt | cyf/project/fe/src/utils/highlight.ts:6 | The first occurrence of a pattern at or after a position, or none |
| Highlight.BodyFrom | cyf/project/fe/src/utils/highlight.ts:6 | The lazy body runs to the first closing tags |
| Highlight.AttrAt | cyf/project/fe/src/utils/highlight.ts:6 | The class group starts with whitespace, captures a quote-free value and ends before '>' |
| Highlight.BlockAt | cyf/project/fe/src/utils/highlight.ts:6 | A match spans at least the opening tags, '>' and the closing tags |
| Highlight.BlockShape | cyf/project/fe/src/utils/highlight.ts:6 | Every match covers the opening tags, the optional class, the shortest body and the first closing tags after it |
| Highlight.PlainBlockAt | cyf/project/fe/src/utils/highlight.ts:6 | The opening tags, '>', a body and the first closing tags after it form a match without class |
| Highlight.ClassBlockAt | cyf/project/fe/src/utils/highlight.ts:6 | The opening tags, whitespace, a class value, a body and the first closing tags form a match capturing that value |
| Highlight.CopiedOutsideBlocks | cyf/project/fe/src/utils/highlight.ts:6 | Text where no match starts is copied unchanged |
| Highlight.NoBlockNoChange | cyf/project/fe/src/utils/highlight.ts:6 | A text without opening tags comes back unchanged |
| Highlight.FirstBlockRewritten | cyf/project/fe/src/utils/highlight.ts:6-33 | The text up to the first match is kept, the match is replaced by its rendering, and the rewrite resumes after it |
| Highlight.DecodeWithoutAmpersand | cyf/project/fe/src/utils/highlight.ts:8-13 | A body without '&' is not changed by decoding |
| Highlight.DecodeEscapedAmp | cyf/project/fe/src/utils/highlight.ts:8-13 | An escaped ampersand is decoded after the '&lt;' and '&gt;' passes, so what follows it meets only the later passes |
| Highlight.DecodeOrderQuote | cyf/project/fe/src/utils/highlight.ts:8-13 | "&amp;quot;" decodes to '"' |
| Highlight.DecodeOrderLt | cyf/project/fe/src/utils/highlight.ts:8-13 | "&amp;lt;" decodes to "&lt;" |
| Highlight.LanguageOfClass | cyf/project/fe/src/utils/highlight.ts:15-22 | A class starting with 'language-' and a word names that word; no class or an empty one names none |
| Highlight.LanguageFound | cyf/project/fe/src/utils/highlight.ts:18-20 | A named language is a non-empty word that follows 'language-' in the class |
| Highlight.RenderedIsBlock | cyf/project/fe/src/utils/highlight.ts:24-33 | A rendered block matches as a block whose class is "hljs " plus the original and whose body is the explicit highlighter's output for a known language, else the automatic one's |
| Highlight.RenderedMatch | cyf/project/fe/src/utils/highlight.ts:6-33 | The output template, with a quote-free class and a body without closing tags, is matched as a block |

## Left out

- I/O is not modelled. This covers the HTTP framework, the JSON envelopes, CORS and
  request decoding. Handlers take the request as a map from field name to text. The
  form-only `system_prompt_create` and the JSON-or-form other handlers are not told apart.
- SQLite and peewee are modelled as in-memory tables. Constraint errors and the
  transactions of the archival script are not modelled beyond what each handler does
  with them. Concurrent requests are not modelled either: every operation runs alone.
- The clock is a parameter. Each operation sees one instant (`now`, `today`), and dates
  are day numbers.
- Network and configuration reads are parameters:
  - the fetched model catalogue is a decoded JSON value (`fetched`);
  - the users setting and the default key are strings;
  - the whitelist and the model list are sets.
- Opaque calls are function parameters:
  - `verify_user_password`, `User.hash_password`, `update_notification` and
    `delete_notification`;
  - the account `create_user` builds, and whether it raises (in the migration and in
    `user_create`);
  - the lookup `get_user_by_username` in the migration;
  - `secure_filename`;
  - highlight.js.

  Their own behaviour (hashing, salting, the notification table) is not modelled.
- `ServerAdmin.AdminGate`: the handler methods model the bodies of the decorated
  functions, which run only once the gate has passed. Only `AdminModelMetaCreate`
  composes the gate with its handler, and it takes the gate's verdict as a parameter.
  The other routes compose the same way, but that is not written out.
- `ServerAdmin.UserCreate`: a raise is taken to come from `create_user` before it stores
  anything. A failure of the later `save()` of the role and is_active overrides, which
  would leave the created row without them, is not modelled.
- `InitUserData.MigrateStep`: `create_user` is taken to insert one row for the name at the
  next id. Its insert is refused when the name is already held, because usernames are unique.
  The lookup is any function of the table and the name.
- `Common.ParsePyInt` reads ASCII digits only. Python's `int()` also accepts the other
  Unicode decimal digits (`int('１２')` is 12), and it raises above 4300 digits. So the model
  refuses, or reads as 0, some text that the handlers read as a number
  (`ServerAdmin.RequestId`, `NumberField`, `PatchTestLimit` and `NewPriority`), and it
  accepts longer numbers than Python does.
- `Router.Guard`: paths are matched the way the router matches them by default, that is
  ignoring ASCII case and one trailing '/'. Percent-encoded paths are not decoded.
- `notification_list`, `notification_active_list` and `notification_get` are not modelled
  because they only forward to helpers outside the shown store.
- `get_system_prompt_list`, `message_query` and the `/set_info` route are not modelled;
  the last two run arbitrary SQL.
- The server's upstream model call, its logging and its four-argument `set_dialog` call
  are not modelled.
- `model_type` has no column. Its `int()` check is kept (ServerAdmin.ModelMetaCreate) but
  its value is dropped.
- `InitModelMeta.StepOf`: a non-text value in a text column goes through an
  uninterpreted `text` conversion, and non-object entries are reduced to the cases that
  raise or skip.
- The archival script's file handling (the backup directory, removing an old file), its
  statistics queries and the closing of connections are not modelled. Recreating the
  backup is modelled as emptying its two tables (`ArchiveManager.CreateBackupDatabase`).
- localStorage entries are kept as what `JSON.parse` makes of them. An item has an
  optional text value and an optional numeric expiry; anything else is `Other`.
  Serialisation is not modelled.
- The version service's storage is a separate map from the auth store's.
- `clearCache` is counted as an event, not performed.
- `sendMessage`'s delayed reply, `renderMarkdown` and loading a dialog's context are not
  modelled. Messages are values, so aliasing between the list and a held message object is
  not captured.
- `UseChat.ChatState.SendMessage`: the `timestamp` is an integer parameter rather than a
  `Date`.
- `SqliteLog.Database.IncrementTestLimit` computes the fetched row through
  GetOrCreateLimit and then replaces it in one assignment. It does not call
  GetOrCreateTestLimit and SaveTestLimit in turn. SavedRecordPosition states that the save
  by id hits the fetched row.
- Python's `lower()` and `isspace()` follow the ASCII letters and the Unicode
  whitespace table. Full Unicode case mapping is not modelled.

## Findings

| source | as written | input that shows it | evidently intended | confidence | as-written member | corrected member |
|---|---|---|---|---|---|---|
| cyf/project/server/server_admin.py:216 | `system_prompt_list` calls `to_dict()` on each row of `query.dicts()`. These rows are plain dictionaries, so any non-empty result raises, and the handler answers with its generic failure | one valid preset and no filters | every preset that passes the filters is listed | not executed | ServerAdmin.SystemPromptListAsWritten (with ServerAdmin.SystemPromptListCounterexample and ServerAdmin.SystemPromptListAgreesOnlyWhenEmpty) | ServerAdmin.SystemPromptList |
