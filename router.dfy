/**
 * The front end's route table and its navigation guard. The guard reads
 * localStorage directly: user and password only for presence, the role as
 * the `value` of the parsed JSON item; expiry is not looked at. The guard's
 * call into the version check touches other keys and is modelled by the
 * Version module.
 */
module Router {
  import opened Common
  import opened Auth

  /** The `meta` of a route. */
  datatype Meta = Meta(requiresAuth: bool, requiresAdmin: bool)

  /** The route table's redirect: '/' goes to '/login' before the guard runs. */
  function Resolve(path: string): string {
    if path == "/" then "/login" else path
  }

  /** One trailing '/' is optional in a record's path (the router is not strict). */
  function TrimSlash(path: string): string {
    if |path| > 1 && path[|path| - 1] == '/' then path[..|path| - 1] else path
  }

  /**
   * The spelling a path is matched in: the router ignores case (the paths of
   * the records are ASCII, and no other character folds to an ASCII letter)
   * and one trailing '/'.
   */
  function MatchedPath(path: string): string {
    TrimSlash(Lower(path))
  }

  /** The meta of the matched route; '/login' and unmatched paths have none. */
  function RouteMeta(path: string): Meta {
    var p := MatchedPath(path);
    if p == "/chat" then Meta(true, false)
    else if p == "/admin" then Meta(true, true)
    else Meta(false, false)
  }

  /** `localStorage.getItem(key)` is truthy: the key is there and its text is not empty. */
  predicate Present(s: Storage, key: string) {
    key in s && (s[key].Item? || s[key].raw != "")
  }

  /**
   * The role the guard sees: the `value` of the parsed 'role' item. Text
   * that is not a JSON object has no `value` (or fails to parse), so the
   * role stays null.
   */
  function GuardRole(s: Storage): Option<string> {
    if "role" in s && s["role"].Item? then s["role"].value else None
  }

  datatype Decision = Proceed | RedirectTo(path: string)

  /** beforeEach: the decision for a navigation to `path`. */
  function Guard(s: Storage, path: string): Decision {
    var to := Resolve(path);
    var meta := RouteMeta(to);
    var credentials := Present(s, "user") && Present(s, "password");
    if meta.requiresAdmin && GuardRole(s) != Some("admin") then RedirectTo("/chat")
    else if meta.requiresAuth && !credentials then RedirectTo("/login")
    else if to == "/login" && credentials then RedirectTo("/chat")
    else Proceed
  }

  /**
   * The guard's rules in order: a non-admin is sent from the admin route to
   * '/chat' whatever the credentials; otherwise a protected route without
   * credentials goes to '/login'; the path '/login' itself (compared as
   * spelled) with credentials goes to '/chat'; everything else proceeds.
   */
  lemma GuardFacts(s: Storage, path: string)
    ensures var to := Resolve(path);
      var m := MatchedPath(to);
      var credentials := Present(s, "user") && Present(s, "password");
      && (m == "/admin" && GuardRole(s) != Some("admin") ==> Guard(s, path) == RedirectTo("/chat"))
      && (Guard(s, path) == RedirectTo("/login") <==>
            (m == "/chat" || (m == "/admin" && GuardRole(s) == Some("admin"))) && !credentials)
      && (to == "/login" ==> (Guard(s, path) == RedirectTo("/chat") <==> credentials))
      && (Guard(s, path) == Proceed <==>
            (to == "/login" && !credentials)
            || ((m == "/chat" || (m == "/admin" && GuardRole(s) == Some("admin"))) && credentials)
            || (to != "/login" && m != "/chat" && m != "/admin"))
  {
    assert Resolve(path) == "/login" ==> MatchedPath(Resolve(path)) == "/login";
  }

  /** A path spelled in another case, or with a trailing '/', reaches the same record and the same decision. */
  lemma SpellingsReachRecord(s: Storage, path: string, record: string)
    requires record == "/chat" || record == "/admin"
    requires Lower(path) == record || Lower(path) == record + "/"
    ensures Guard(s, path) == Guard(s, record)
  {
    assert MatchedPath(record) == record by {
      assert Lower(record) == record;
    }
    assert MatchedPath(path) == record by {
      if Lower(path) == record + "/" {
        assert TrimSlash(record + "/") == record;
      }
    }
  }

  /** So '/Admin' and '/admin/' are closed to a visitor who is not an admin. */
  lemma AdminSpellings()
    ensures Guard(map[], "/Admin") == RedirectTo("/chat") && Guard(map[], "/admin/") == RedirectTo("/chat")
  {
    assert Lower("/Admin") == "/admin";
    assert Lower("/admin/") == "/admin/";
    SpellingsReachRecord(map[], "/Admin", "/admin");
    SpellingsReachRecord(map[], "/admin/", "/admin");
  }

  /** And '/CHAT' and '/chat/' send a visitor without credentials to '/login'. */
  lemma ChatSpellings()
    ensures Guard(map[], "/CHAT") == RedirectTo("/login") && Guard(map[], "/chat/") == RedirectTo("/login")
  {
    assert Lower("/CHAT") == "/chat";
    assert Lower("/chat/") == "/chat/";
    SpellingsReachRecord(map[], "/CHAT", "/chat");
    SpellingsReachRecord(map[], "/chat/", "/chat");
  }

  /** The login check compares the path as spelled: '/Login' lets a logged-in user through. */
  lemma LoginComparedAsSpelled(s: Storage)
    requires Present(s, "user") && Present(s, "password")
    ensures Guard(s, "/login") == RedirectTo("/chat") && Guard(s, "/Login") == Proceed
  {
    assert Lower("/Login") == "/login";
    assert MatchedPath("/Login") == "/login";
  }

  /** '/' is guarded as '/login'. */
  lemma RootIsLogin(s: Storage)
    ensures Guard(s, "/") == Guard(s, "/login")
  {
  }

  /** The guard never reads expiry: re-dating any item leaves every decision as it was. */
  lemma ExpiryIgnored(s: Storage, key: string, value: Option<string>, e1: Option<int>, e2: Option<int>, path: string)
    ensures Guard(s[key := Item(value, e1)], path) == Guard(s[key := Item(value, e2)], path)
  {
  }

  /**
   * So a login whose week has passed still opens '/chat' and still bounces
   * '/login' to '/chat', although the store itself no longer authenticates.
   */
  lemma ExpiredLoginStillRoutes(s: Storage, username: string, password: string, role: Option<string>, now: int, t: int)
    requires 0 <= now < t - WeekMs
    ensures !AuthOk(LoginStorage(s, username, password, role, now), t)
    ensures Guard(LoginStorage(s, username, password, role, now), "/chat") == Proceed
    ensures Guard(LoginStorage(s, username, password, role, now), "/login") == RedirectTo("/chat")
  {
    LoginValidForAWeek(s, username, password, role, now, t);
  }

  /** A parse failure or a non-object role text leaves the role null, so admin routes stay closed. */
  lemma RawRoleIsNotAdmin(s: Storage, raw: string)
    ensures GuardRole(s["role" := Other(raw)]).None?
    ensures Guard(s["role" := Other(raw)], "/admin") == RedirectTo("/chat")
  {
  }

  /** A non-admin's way to '/admin' ends on '/chat' if logged in, else on '/login'. */
  lemma NonAdminChain(s: Storage)
    requires GuardRole(s) != Some("admin")
    ensures Guard(s, "/admin") == RedirectTo("/chat")
    ensures Guard(s, "/chat") == if Present(s, "user") && Present(s, "password") then Proceed else RedirectTo("/login")
  {
  }

  /** After a login as admin the admin page opens; after logout every protected page leads to '/login'. */
  lemma LoginLogoutRoutes(s: Storage, username: string, password: string, now: int)
    ensures Guard(LoginStorage(s, username, password, Some("admin"), now), "/admin") == Proceed
    ensures Guard(s - {"user", "password", "role"}, "/chat") == RedirectTo("/login")
    ensures Guard(s - {"user", "password", "role"}, "/admin") == RedirectTo("/chat")
  {
    var l := LoginStorage(s, username, password, Some("admin"), now);
    assert l["role"] == Fresh("admin", now);
  }
}
