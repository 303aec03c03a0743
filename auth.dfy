/**
 * The front end's credential store: user, password and role are kept in
 * three refs and mirrored into localStorage as items that expire a week
 * after they were written. The clock is a parameter `now` (milliseconds),
 * one instant per operation.
 */
module Auth {
  import opened Common

  /** Seven days in milliseconds. */
  const WeekMs: int := 7 * 24 * 60 * 60 * 1000

  /**
   * A localStorage entry as JSON.parse sees it: an object with an optional
   * text `value` and an optional numeric `expiry` (what setStoredValue
   * writes has both), or any other text.
   */
  datatype StoredEntry = Item(value: Option<string>, expiry: Option<int>) | Other(raw: string)

  type Storage = map<string, StoredEntry>

  /** `parsedItem.expiry && now > parsedItem.expiry`: a missing or zero expiry never expires. */
  predicate Expired(e: StoredEntry, now: int) {
    e.Item? && e.expiry.Some? && e.expiry.value != 0 && now > e.expiry.value
  }

  /**
   * What getStoredValue returns: nothing for a missing key, an expired item
   * or text that is not an object, else the item's value.
   */
  function StoredValue(s: Storage, key: string, now: int): Option<string> {
    if key !in s || Expired(s[key], now) then None
    else match s[key]
      case Item(v, _) => v
      case Other(_) => None
  }

  /** The storage after getStoredValue: an expired item is removed. */
  function AfterGet(s: Storage, key: string, now: int): Storage {
    if key in s && Expired(s[key], now) then s - {key} else s
  }

  /** The item setStoredValue writes: the value, valid for a week. */
  function Fresh(value: string, now: int): StoredEntry {
    Item(Some(value), Some(now + WeekMs))
  }

  /** JavaScript truthiness of a stored value: present and not empty. */
  predicate Truthy(v: Option<string>) {
    v.Some? && v.value != ""
  }

  /**
   * The expiry rule: an item written at `now` reads back unchanged until
   * `now + WeekMs` inclusive and is removed on the first read after that;
   * an item without expiry reads back at any time.
   */
  lemma ExpiryRule(s: Storage, key: string, value: string, written: int, now: int)
    requires written >= 0
    ensures StoredValue(s[key := Fresh(value, written)], key, now) == if now <= written + WeekMs then Some(value) else None
    ensures now > written + WeekMs ==> key !in AfterGet(s[key := Fresh(value, written)], key, now)
    ensures now <= written + WeekMs ==> AfterGet(s[key := Fresh(value, written)], key, now) == s[key := Fresh(value, written)]
    ensures StoredValue(s[key := Item(Some(value), None)], key, now) == Some(value)
  {
  }

  /** Reading one key neither changes what another key reads nor whether it is kept. */
  lemma AfterGetOther(s: Storage, k1: string, k2: string, now: int)
    requires k1 != k2
    ensures StoredValue(AfterGet(s, k1, now), k2, now) == StoredValue(s, k2, now)
    ensures AfterGet(AfterGet(s, k1, now), k2, now) == AfterGet(AfterGet(s, k2, now), k1, now)
  {
  }

  /** The storage after reading user, password and role in that order. */
  function Swept(s: Storage, now: int): Storage {
    AfterGet(AfterGet(AfterGet(s, "user", now), "password", now), "role", now)
  }

  /** What isAuthenticated decides: both stored credentials are present, unexpired and non-empty. */
  predicate AuthOk(s: Storage, now: int) {
    Truthy(StoredValue(s, "user", now)) && Truthy(StoredValue(s, "password", now))
  }

  /** `userData.role || 'user'` */
  function RoleOrUser(role: Option<string>): string {
    if role.Some? && role.value != "" then role.value else "user"
  }

  /** The storage after login. */
  function LoginStorage(s: Storage, username: string, password: string, role: Option<string>, now: int): Storage {
    s["user" := Fresh(username, now)]["password" := Fresh(password, now)]["role" := Fresh(RoleOrUser(role), now)]
  }

  /**
   * A login keeps the session for exactly a week: until then the stored
   * credentials authenticate (when both are non-empty), afterwards they do
   * not; the stored role is the given one or 'user'.
   */
  lemma LoginValidForAWeek(s: Storage, username: string, password: string, role: Option<string>, now: int, t: int)
    requires 0 <= now
    ensures AuthOk(LoginStorage(s, username, password, role, now), t)
            <==> t <= now + WeekMs && username != "" && password != ""
    ensures t <= now + WeekMs ==> StoredValue(LoginStorage(s, username, password, role, now), "role", t) == Some(RoleOrUser(role))
    ensures RoleOrUser(role) == "admin" <==> role == Some("admin")
  {
    var l := LoginStorage(s, username, password, role, now);
    assert l["user"] == Fresh(username, now) && l["password"] == Fresh(password, now);
  }

  /** After logout nothing authenticates, whatever the clock says. */
  lemma LogoutForgets(s: Storage, now: int)
    ensures !AuthOk(s - {"user", "password", "role"}, now)
    ensures StoredValue(s - {"user", "password", "role"}, "role", now).None?
  {
  }

  /** The triple getCredentials returns. */
  datatype Credentials = Credentials(user: Option<string>, password: Option<string>, role: Option<string>)

  /** The auth store: its three refs and the localStorage it mirrors. */
  class AuthStore {
    var storage: Storage
    var user: Option<string>
    var password: Option<string>
    var role: Option<string>

    /** Store creation: each ref starts from getStoredValue of its key. */
    constructor (initial: Storage, now: int)
      ensures storage == Swept(initial, now)
      ensures user == StoredValue(initial, "user", now)
      ensures password == StoredValue(initial, "password", now)
      ensures role == StoredValue(initial, "role", now)
    {
      storage := initial;
      new;
      AfterGetOther(initial, "user", "password", now);
      AfterGetOther(initial, "user", "role", now);
      AfterGetOther(AfterGet(initial, "user", now), "password", "role", now);
      user := GetStoredValue("user", now);
      password := GetStoredValue("password", now);
      role := GetStoredValue("role", now);
    }

    /** getStoredValue */
    method GetStoredValue(key: string, now: int) returns (v: Option<string>)
      modifies this`storage
      ensures v == StoredValue(old(storage), key, now)
      ensures storage == AfterGet(old(storage), key, now)
    {
      if key !in storage {
        return None;
      }
      var item := storage[key];
      if Expired(item, now) {
        storage := storage - {key};
        return None;
      }
      v := if item.Item? then item.value else None;
    }

    /** setStoredValue */
    method SetStoredValue(key: string, value: string, now: int)
      modifies this`storage
      ensures storage == old(storage)[key := Fresh(value, now)]
    {
      storage := storage[key := Fresh(value, now)];
    }

    /** login: the refs take the credentials, the role defaulting to 'user', and all three are stored. */
    method Login(username: string, pw: string, userRole: Option<string>, now: int)
      modifies this
      ensures user == Some(username) && password == Some(pw) && role == Some(RoleOrUser(userRole))
      ensures storage == LoginStorage(old(storage), username, pw, userRole, now)
      ensures IsAdmin() <==> userRole == Some("admin")
    {
      user := Some(username);
      password := Some(pw);
      role := Some(if userRole.Some? && userRole.value != "" then userRole.value else "user");
      SetStoredValue("user", username, now);
      SetStoredValue("password", pw, now);
      SetStoredValue("role", role.value, now);
    }

    /** logout: the refs are cleared and the three keys removed. */
    method Logout()
      modifies this
      ensures user.None? && password.None? && role.None?
      ensures storage == old(storage) - {"user", "password", "role"}
      ensures !IsAdmin()
    {
      user, password, role := None, None, None;
      storage := storage - {"user"};
      storage := storage - {"password"};
      storage := storage - {"role"};
    }

    /**
     * isAuthenticated: reads the three items (dropping expired ones); with
     * a missing user or password the refs are cleared and the answer is
     * false, otherwise the refs take the stored values and it is true.
     */
    method IsAuthenticated(now: int) returns (ok: bool)
      modifies this
      ensures storage == Swept(old(storage), now)
      ensures ok <==> AuthOk(old(storage), now)
      ensures !ok ==> user.None? && password.None? && role.None?
      ensures ok ==> user == StoredValue(old(storage), "user", now) && password == StoredValue(old(storage), "password", now)
                     && role == StoredValue(old(storage), "role", now)
    {
      AfterGetOther(storage, "user", "password", now);
      AfterGetOther(storage, "user", "role", now);
      AfterGetOther(AfterGet(storage, "user", now), "password", "role", now);
      var storedUser := GetStoredValue("user", now);
      var storedPassword := GetStoredValue("password", now);
      var storedRole := GetStoredValue("role", now);
      if !Truthy(storedUser) || !Truthy(storedPassword) {
        user, password, role := None, None, None;
        return false;
      }
      if user != storedUser {
        user := storedUser;
      }
      if password != storedPassword {
        password := storedPassword;
      }
      if role != storedRole {
        role := storedRole;
      }
      ok := Truthy(user) && Truthy(password);
    }

    /** isAdmin */
    predicate IsAdmin()
      reads this`role
    {
      role == Some("admin")
    }

    /**
     * getCredentials: the stored triple, or all nothing (and the refs
     * cleared) when the user or password is missing or expired.
     */
    method GetCredentials(now: int) returns (c: Credentials)
      modifies this
      ensures storage == Swept(old(storage), now)
      ensures !AuthOk(old(storage), now) ==>
                (c == Credentials(None, None, None) && user.None? && password.None? && role.None?)
      ensures AuthOk(old(storage), now) ==>
                (c == Credentials(StoredValue(old(storage), "user", now), StoredValue(old(storage), "password", now),
                                  StoredValue(old(storage), "role", now))
                 && user == old(user) && password == old(password) && role == old(role))
    {
      AfterGetOther(storage, "user", "password", now);
      AfterGetOther(storage, "user", "role", now);
      AfterGetOther(AfterGet(storage, "user", now), "password", "role", now);
      var storedUser := GetStoredValue("user", now);
      var storedPassword := GetStoredValue("password", now);
      var storedRole := GetStoredValue("role", now);
      if !Truthy(storedUser) || !Truthy(storedPassword) {
        user, password, role := None, None, None;
        return Credentials(None, None, None);
      }
      c := Credentials(storedUser, storedPassword, storedRole);
    }
  }
}
