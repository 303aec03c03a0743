/**
 * Migration of the accounts listed in the `users` entry of the server's
 * configuration into the user table. The entry holds one account per line
 * (older files: several per line, separated by commas), each written
 * `name:password:api_key` with the key optional. The configuration text and
 * the configured default key are parameters here.
 */
module InitUserData {
  import opened Common
  import opened Tables
  import opened SqliteLog

  /** One parsed account: the value `user_data[username] = (password, api_key)`. */
  datatype Entry = Entry(username: string, password: string, apiKey: string)

  // ---------------------------------------------------------------------------
  // The insertion-ordered dictionary user_data
  // ---------------------------------------------------------------------------

  /** The value stored under `name`. */
  function Lookup(d: seq<Entry>, name: string): (r: Option<(string, string)>)
    ensures r.None? <==> forall i :: 0 <= i < |d| ==> d[i].username != name
    decreases |d|
  {
    if d == [] then None
    else if d[0].username == name then Some((d[0].password, d[0].apiKey))
    else Lookup(d[1..], name)
  }

  /** A dictionary is a sequence of entries in insertion order, one per username. */
  predicate DistinctNames(d: seq<Entry>)
    decreases |d|
  {
    d == [] || (Lookup(d[1..], d[0].username).None? && DistinctNames(d[1..]))
  }

  /**
   * `user_data[e.username] = ...`: an existing key keeps its place and takes
   * the new value, a new key goes at the end.
   */
  function Put(d: seq<Entry>, e: Entry): seq<Entry>
    decreases |d|
  {
    if d == [] then [e]
    else if d[0].username == e.username then [e] + d[1..]
    else [d[0]] + Put(d[1..], e)
  }

  /**
   * Assignment into the dictionary: the key now maps to the new value,
   * every other key keeps its value, no key is duplicated, and the
   * dictionary grows only by a new key.
   */
  lemma {:induction false} PutFacts(d: seq<Entry>, e: Entry)
    requires DistinctNames(d)
    ensures DistinctNames(Put(d, e))
    ensures Lookup(Put(d, e), e.username) == Some((e.password, e.apiKey))
    ensures forall name :: name != e.username ==> Lookup(Put(d, e), name) == Lookup(d, name)
    ensures |Put(d, e)| == if Lookup(d, e.username).None? then |d| + 1 else |d|
    decreases |d|
  {
    if d == [] {
      assert Put(d, e) == [e] && [e][1..] == [];
    } else if d[0].username == e.username {
      assert ([e] + d[1..])[1..] == d[1..];
    } else {
      PutFacts(d[1..], e);
      assert ([d[0]] + Put(d[1..], e))[1..] == Put(d[1..], e);
    }
  }

  // ---------------------------------------------------------------------------
  // The text format
  // ---------------------------------------------------------------------------

  /** The stripped lines that are not blank: the list comprehension over `split('\n')`. */
  function NonBlankLines(lines: seq<string>): (r: seq<string>)
    ensures |r| <= |lines|
    decreases |lines|
  {
    if lines == [] then []
    else
      var front := NonBlankLines(lines[..|lines| - 1]);
      var line := PyStrip(lines[|lines| - 1]);
      if line == [] then front else front + [line]
  }

  /** user_lines */
  function UserLines(usersConfig: string): seq<string> {
    NonBlankLines(Split(usersConfig, '\n'))
  }

  /** Not empty, and no whitespace at either end. */
  predicate Stripped(l: string) {
    l != [] && !IsPySpace(l[0]) && !IsPySpace(l[|l| - 1])
  }

  /** No user line is empty or starts or ends with whitespace. */
  lemma {:induction false} NonBlankLinesStripped(lines: seq<string>)
    ensures forall i :: 0 <= i < |NonBlankLines(lines)| ==> Stripped(NonBlankLines(lines)[i])
    decreases |lines|
  {
    if lines != [] {
      var front := NonBlankLines(lines[..|lines| - 1]);
      var line := PyStrip(lines[|lines| - 1]);
      NonBlankLinesStripped(lines[..|lines| - 1]);
      StripBothEnds(lines[|lines| - 1], IsPySpace);
      assert NonBlankLines(lines) == if line == [] then front else front + [line];
    }
  }

  /** One line is kept, stripped, exactly when it is not blank. */
  lemma NonBlankLinesOne(l: string)
    ensures NonBlankLines([l]) == if PyStrip(l) == [] then [] else [PyStrip(l)]
  {
    assert [l][..0] == [];
  }

  /** The filter works line by line: on joined lists it joins its results, in order. */
  lemma {:induction false} NonBlankLinesAppend(a: seq<string>, b: seq<string>)
    ensures NonBlankLines(a + b) == NonBlankLines(a) + NonBlankLines(b)
    decreases |b|
  {
    if b == [] {
      assert a + b == a;
    } else {
      var b' := b[..|b| - 1];
      assert (a + b)[..|a + b| - 1] == a + b';
      assert (a + b)[|a + b| - 1] == b[|b| - 1];
      NonBlankLinesAppend(a, b');
    }
  }

  /** No line is lost: each non-blank line is kept, stripped, after the lines kept before it. */
  lemma NonBlankLinesKeeps(lines: seq<string>, i: nat)
    requires i < |lines| && PyStrip(lines[i]) != []
    ensures var r := NonBlankLines(lines);
      var k := |NonBlankLines(lines[..i])|;
      k < |r| && r[k] == PyStrip(lines[i]) && r[..k] == NonBlankLines(lines[..i])
  {
    assert lines == lines[..i] + [lines[i]] + lines[i + 1..];
    NonBlankLinesOne(lines[i]);
    NonBlankLinesAppend(lines[..i], [lines[i]]);
    NonBlankLinesAppend(lines[..i] + [lines[i]], lines[i + 1..]);
  }

  /** The items of one line: split on commas only when the line holds one. */
  function LineItems(line: string): seq<string> {
    if ',' in line then Split(line, ',') else [line]
  }

  /** The comma test changes nothing: a comma-free line splits into itself anyway. */
  lemma LineItemsIsSplit(line: string)
    ensures LineItems(line) == Split(line, ',')
  {
    if ',' !in line {
      SplitWithoutSep(line, ',');
    }
  }

  /** `s.split(sep, 2)`: at most two cuts, at the first two separators. */
  function SplitTwice(s: string, sep: char): (parts: seq<string>)
    ensures 1 <= |parts| <= 3
    ensures |parts| == 1 <==> sep !in s
    ensures |parts| >= 2 ==> sep !in parts[0] && sep !in parts[1]
  {
    match IndexOf(s, sep)
    case None => [s]
    case Some(i) =>
      var rest := s[i + 1..];
      match IndexOf(rest, sep)
      case None => [s[..i], rest]
      case Some(j) => [s[..i], rest[..j], rest[j + 1..]]
  }

  /** The parts of SplitTwice glued back with the separator give the text again. */
  lemma SplitTwiceJoin(s: string, sep: char)
    ensures Join(SplitTwice(s, sep), sep) == s
  {
    match IndexOf(s, sep)
    case None =>
    case Some(i) =>
      var rest := s[i + 1..];
      CutAt(s, i);
      match IndexOf(rest, sep)
      case None =>
        JoinTwo(s[..i], rest, sep);
      case Some(j) =>
        CutAt(rest, j);
        JoinThree(s[..i], rest[..j], rest[j + 1..], sep);
  }

  /** A text is what comes before index `i`, the character there, and what follows. */
  lemma CutAt(s: string, i: nat)
    requires i < |s|
    ensures s == s[..i] + [s[i]] + s[i + 1..]
  {
  }


  lemma JoinTwo(a: string, b: string, sep: char)
    ensures Join([a, b], sep) == a + [sep] + b
  {
    assert [a, b][1..] == [b];
  }

  lemma JoinThree(a: string, b: string, c: string, sep: char)
    ensures Join([a, b, c], sep) == a + [sep] + (b + [sep] + c)
  {
    assert [a, b, c][1..] == [b, c];
    JoinTwo(b, c, sep);
  }

  /** What one comma-separated item contributes: an entry, or nothing for a blank item. */
  function ItemEntry(item: string, defaultKey: string): Option<Entry> {
    var parts := SplitTwice(PyStrip(item), ':');
    if |parts| >= 2 then
      var apiKey := if |parts| >= 3 && PyStrip(parts[2]) != "" then PyStrip(parts[2]) else defaultKey;
      Some(Entry(PyStrip(parts[0]), PyStrip(parts[1]), apiKey))
    else if PyStrip(item) != "" then Some(Entry(PyStrip(item), "", defaultKey))
    else None
  }

  /**
   * The item rules: a blank item gives nothing; an item without a colon is
   * a bare username with an empty password and the default key; otherwise
   * the name and password are the first two colon-free parts and the key is
   * everything after the second colon, colons included, unless that is
   * blank.
   */
  lemma ItemEntryFacts(item: string, defaultKey: string)
    ensures PyBlank(item) ==> ItemEntry(item, defaultKey).None?
    ensures !PyBlank(item) && ':' !in item ==> ItemEntry(item, defaultKey) == Some(Entry(PyStrip(item), "", defaultKey))
    ensures ':' in PyStrip(item) ==>
      var parts := SplitTwice(PyStrip(item), ':');
      var e := ItemEntry(item, defaultKey);
      && e.Some? && e.value.username == PyStrip(parts[0]) && e.value.password == PyStrip(parts[1])
      && ':' !in parts[0] && ':' !in parts[1] && Join(parts, ':') == PyStrip(item)
      && (e.value.apiKey == defaultKey <==> |parts| < 3 || PyBlank(parts[2]) || PyStrip(parts[2]) == defaultKey)
      && (|parts| == 3 && !PyBlank(parts[2]) ==> e.value.apiKey == PyStrip(parts[2]))
  {
    SplitTwiceJoin(PyStrip(item), ':');
    if ':' !in item {
      StripInside(item);
    }
  }

  /** Stripping only removes characters. */
  lemma StripInside(s: string)
    ensures forall c :: c in PyStrip(s) ==> c in s
  {
    var l := StripLeft(s, IsPySpace);
    var r := StripRight(l, IsPySpace);
    forall c | c in r ensures c in s {
      var k :| 0 <= k < |r| && r[k] == c;
      assert l[k] == c;
      assert s[|s| - |l| + k] == c;
    }
  }

  /** The inner loop over the items of one line. */
  function PutItems(d: seq<Entry>, items: seq<string>, defaultKey: string): seq<Entry>
    decreases |items|
  {
    if items == [] then d
    else
      var front := PutItems(d, items[..|items| - 1], defaultKey);
      match ItemEntry(items[|items| - 1], defaultKey)
      case None => front
      case Some(e) => Put(front, e)
  }

  /** The outer loop over the user lines. */
  function PutLines(d: seq<Entry>, lines: seq<string>, defaultKey: string): seq<Entry>
    decreases |lines|
  {
    if lines == [] then d
    else PutItems(PutLines(d, lines[..|lines| - 1], defaultKey), LineItems(lines[|lines| - 1]), defaultKey)
  }

  /** parse_users_from_config on the text of the `users` entry. */
  function ParseUsers(usersConfig: string, defaultKey: string): seq<Entry> {
    PutLines([], UserLines(usersConfig), defaultKey)
  }

  /** The items of the whole text, in reading order. */
  function AllItems(lines: seq<string>): seq<string>
    decreases |lines|
  {
    if lines == [] then [] else AllItems(lines[..|lines| - 1]) + LineItems(lines[|lines| - 1])
  }

  /** The two loops are one loop over all items in reading order. */
  lemma {:induction false} PutLinesIsPutItems(d: seq<Entry>, lines: seq<string>, defaultKey: string)
    ensures PutLines(d, lines, defaultKey) == PutItems(d, AllItems(lines), defaultKey)
    decreases |lines|
  {
    if lines != [] {
      var front := lines[..|lines| - 1];
      PutLinesIsPutItems(d, front, defaultKey);
      PutItemsAppend(d, AllItems(front), LineItems(lines[|lines| - 1]), defaultKey);
    }
  }

  lemma {:induction false} PutItemsAppend(d: seq<Entry>, xs: seq<string>, ys: seq<string>, defaultKey: string)
    ensures PutItems(d, xs + ys, defaultKey) == PutItems(PutItems(d, xs, defaultKey), ys, defaultKey)
    decreases |ys|
  {
    if ys == [] {
      assert xs + ys == xs;
    } else {
      var ys' := ys[..|ys| - 1];
      assert (xs + ys)[..|xs + ys| - 1] == xs + ys';
      assert (xs + ys)[|xs + ys| - 1] == ys[|ys| - 1];
      PutItemsAppend(d, xs, ys', defaultKey);
    }
  }

  /**
   * Last one wins: when item `k` gives an entry and no later item mentions
   * the same username, that entry's password and key are what the
   * dictionary holds for the name.
   */
  lemma {:induction false} LastEntryWins(d: seq<Entry>, items: seq<string>, defaultKey: string, k: nat)
    requires DistinctNames(d)
    requires k < |items| && ItemEntry(items[k], defaultKey).Some?
    requires forall j :: k < j < |items| && ItemEntry(items[j], defaultKey).Some? ==>
               ItemEntry(items[j], defaultKey).value.username != ItemEntry(items[k], defaultKey).value.username
    ensures var e := ItemEntry(items[k], defaultKey).value;
      Lookup(PutItems(d, items, defaultKey), e.username) == Some((e.password, e.apiKey))
    decreases |items|
  {
    var e := ItemEntry(items[k], defaultKey).value;
    var front := items[..|items| - 1];
    PutItemsDistinct(d, front, defaultKey);
    if k == |items| - 1 {
      PutFacts(PutItems(d, front, defaultKey), e);
    } else {
      LastEntryWins(d, front, defaultKey, k);
      match ItemEntry(items[|items| - 1], defaultKey)
      case None =>
      case Some(e') =>
        PutFacts(PutItems(d, front, defaultKey), e');
    }
  }

  /** The dictionary never holds a username twice. */
  lemma {:induction false} PutItemsDistinct(d: seq<Entry>, items: seq<string>, defaultKey: string)
    requires DistinctNames(d)
    ensures DistinctNames(PutItems(d, items, defaultKey))
    decreases |items|
  {
    if items != [] {
      PutItemsDistinct(d, items[..|items| - 1], defaultKey);
      match ItemEntry(items[|items| - 1], defaultKey)
      case None =>
      case Some(e) => PutFacts(PutItems(d, items[..|items| - 1], defaultKey), e);
    }
  }

  /** The parsed dictionary holds every username once. */
  lemma ParseUsersDistinct(usersConfig: string, defaultKey: string)
    ensures DistinctNames(ParseUsers(usersConfig, defaultKey))
  {
    PutLinesIsPutItems([], UserLines(usersConfig), defaultKey);
    PutItemsDistinct([], AllItems(UserLines(usersConfig)), defaultKey);
  }

  /** The body of the line loop: the items of `line` go into `userData` in order. */
  method AddLineItems(userData: seq<Entry>, line: string, defaultKey: string) returns (d: seq<Entry>)
    ensures d == PutItems(userData, LineItems(line), defaultKey)
  {
    var userEntries := if ',' in line then Split(line, ',') else [line];
    d := userData;
    for j := 0 to |userEntries|
      invariant d == PutItems(userData, userEntries[..j], defaultKey)
    {
      PutItemsNext(userData, userEntries, j, defaultKey);
      var entry := ItemEntry(userEntries[j], defaultKey);
      if entry.Some? {
        d := Put(d, entry.value);
      }
    }
    assert userEntries[..|userEntries|] == userEntries;
  }

  lemma PutItemsNext(d: seq<Entry>, items: seq<string>, j: nat, defaultKey: string)
    requires j < |items|
    ensures PutItems(d, items[..j + 1], defaultKey) ==
      match ItemEntry(items[j], defaultKey)
      case None => PutItems(d, items[..j], defaultKey)
      case Some(e) => Put(PutItems(d, items[..j], defaultKey), e)
  {
    assert items[..j + 1][..j] == items[..j];
  }

  lemma PutLinesNext(lines: seq<string>, i: nat, defaultKey: string)
    requires i < |lines|
    ensures PutLines([], lines[..i + 1], defaultKey) == PutItems(PutLines([], lines[..i], defaultKey), LineItems(lines[i]), defaultKey)
  {
    assert lines[..i + 1][..i] == lines[..i];
  }

  /** parse_users_from_config: the line loop fills `user_data`, item by item. */
  method ParseUsersFromConfig(usersConfig: string, defaultKey: string) returns (userData: seq<Entry>)
    ensures userData == ParseUsers(usersConfig, defaultKey)
    ensures DistinctNames(userData)
  {
    userData := AddLines(UserLines(usersConfig), defaultKey);
    ParseUsersDistinct(usersConfig, defaultKey);
  }

  /** The line loop of parse_users_from_config over the user lines. */
  method AddLines(userLines: seq<string>, defaultKey: string) returns (userData: seq<Entry>)
    ensures userData == PutLines([], userLines, defaultKey)
  {
    userData := [];
    for i := 0 to |userLines|
      invariant userData == PutLines([], userLines[..i], defaultKey)
    {
      PutLinesNext(userLines, i, defaultKey);
      userData := AddLineItems(userData, userLines[i], defaultKey);
    }
    assert userLines[..|userLines|] == userLines;
  }


  // ---------------------------------------------------------------------------
  // migrate_users_to_db
  // ---------------------------------------------------------------------------

  /** The user table, migrated_count and skipped_count. */
  datatype Migration = Migration(table: Table<User>, migrated: nat, skipped: nat)

  /** Some row of the table holds the username. */
  predicate NameInTable(t: Table<User>, name: string) {
    exists i :: 0 <= i < |t| && t[i].data.username == name
  }

  /**
   * One pass of the loop. `userExists` stands for get_user_by_username
   * (whatever rows it finds); a name it finds is skipped and counted.
   * Otherwise create_user inserts the row (`createUser` stands for the
   * account it builds) unless it raises, which is caught and counts nothing:
   * it raises when `createFails` says so, and when the name is already held,
   * as the unique username index refuses the row.
   */
  function MigrateStep(m: Migration, e: Entry, userExists: (Table<User>, string) -> bool,
                       createUser: (string, string, string) -> User,
                       createFails: (string, string, string) -> bool): Migration
  {
    if userExists(m.table, e.username) then m.(skipped := m.skipped + 1)
    else if createFails(e.username, e.password, e.apiKey) || NameInTable(m.table, e.username) then m
    else Migration(Insert(m.table, createUser(e.username, e.password, e.apiKey)), m.migrated + 1, m.skipped)
  }

  /** The loop over the dictionary in insertion order. */
  function Migrate(t: Table<User>, entries: seq<Entry>, userExists: (Table<User>, string) -> bool,
                   createUser: (string, string, string) -> User,
                   createFails: (string, string, string) -> bool): Migration
    decreases |entries|
  {
    if entries == [] then Migration(t, 0, 0)
    else MigrateStep(Migrate(t, entries[..|entries| - 1], userExists, createUser, createFails), entries[|entries| - 1],
                     userExists, createUser, createFails)
  }

  /**
   * Migration only appends rows, one per migrated account, keeps rowid order
   * and the unique username, and counts at most one outcome per entry.
   */
  lemma {:induction false} MigrateFacts(t: Table<User>, entries: seq<Entry>, userExists: (Table<User>, string) -> bool,
                                        createUser: (string, string, string) -> User,
                                        createFails: (string, string, string) -> bool)
    requires IdsIncreasing(t) && UniqueKey(t, NameOfUser)
    requires forall name, password, key :: createUser(name, password, key).username == name
    ensures var m := Migrate(t, entries, userExists, createUser, createFails);
      && m.migrated + m.skipped <= |entries|
      && |m.table| == |t| + m.migrated && m.table[..|t|] == t
      && IdsIncreasing(m.table) && UniqueKey(m.table, NameOfUser)
    decreases |entries|
  {
    if entries != [] {
      var front := entries[..|entries| - 1];
      MigrateFacts(t, front, userExists, createUser, createFails);
      var m := Migrate(t, front, userExists, createUser, createFails);
      var e := entries[|entries| - 1];
      if !userExists(m.table, e.username) && !createFails(e.username, e.password, e.apiKey)
         && !NameInTable(m.table, e.username)
      {
        InsertKeepsUnique(m.table, NameOfUser, createUser(e.username, e.password, e.apiKey));
        var u := Insert(m.table, createUser(e.username, e.password, e.apiKey));
        assert u[..|t|] == m.table[..|t|];
      }
    }
  }

  /** An account the lookup finds is skipped and counted: the table gains no row for it. */
  lemma ExistingSkipped(m: Migration, e: Entry, userExists: (Table<User>, string) -> bool,
                        createUser: (string, string, string) -> User,
                        createFails: (string, string, string) -> bool)
    requires userExists(m.table, e.username)
    ensures MigrateStep(m, e, userExists, createUser, createFails) == m.(skipped := m.skipped + 1)
  {
  }

  /**
   * A held name the lookup does not find (were it to look only at some
   * rows) reaches create_user, whose row the unique index refuses: the
   * account is neither migrated nor counted as skipped, and the table keeps
   * one row per name.
   */
  lemma MissedNameRefused(m: Migration, e: Entry, userExists: (Table<User>, string) -> bool,
                          createUser: (string, string, string) -> User,
                          createFails: (string, string, string) -> bool)
    requires !userExists(m.table, e.username) && NameInTable(m.table, e.username)
    ensures MigrateStep(m, e, userExists, createUser, createFails) == m
  {
  }

  /** migrate_users_to_db over the parsed dictionary `userData`. */
  method MigrateUsersToDb(db: Database, userData: seq<Entry>, userExists: (Table<User>, string) -> bool,
                          createUser: (string, string, string) -> User,
                          createFails: (string, string, string) -> bool)
    returns (migratedCount: nat, skippedCount: nat)
    requires db.UsersValid()
    requires forall name, password, key :: createUser(name, password, key).username == name
    modifies db`users
    ensures Migration(db.users, migratedCount, skippedCount) == Migrate(old(db.users), userData, userExists, createUser, createFails)
    ensures migratedCount + skippedCount <= |userData|
    ensures db.UsersValid()
  {
    migratedCount, skippedCount := 0, 0;
    for i := 0 to |userData|
      invariant Migration(db.users, migratedCount, skippedCount) == Migrate(old(db.users), userData[..i], userExists, createUser, createFails)
    {
      assert userData[..i + 1][..i] == userData[..i];
      var e := userData[i];
      if userExists(db.users, e.username) {
        skippedCount := skippedCount + 1;
        continue;
      }
      if !createFails(e.username, e.password, e.apiKey) && !NameInTable(db.users, e.username) {
        db.users := Insert(db.users, createUser(e.username, e.password, e.apiKey));
        migratedCount := migratedCount + 1;
      }
    }
    assert userData[..|userData|] == userData;
    MigrateFacts(old(db.users), userData, userExists, createUser, createFails);
  }
}
