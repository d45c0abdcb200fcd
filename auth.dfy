/*
 * The browser-side session of the attendance client: what the login
 * helpers write into `localStorage`, what logout removes, and the
 * read-only views the pages use to decide who is signed in.
 *
 * The network round trip is not modelled: each login helper receives the
 * outcome of its `fetch` as a parameter (`LoginReply`), so the model covers
 * every reply the server could give, including a thrown network error.
 */
module ClientAuth {
  import opened Wrappers

  /** The browser's key-value store; a missing key reads as `null` (`None`). */
  class LocalStorage {
    var items: map<string, string>

    constructor ()
      ensures items == map[]
    {
      items := map[];
    }

    /** `getItem`: the stored value, or `None` when the key is absent. */
    function GetItem(key: string): (v: Option<string>)
      reads this
    {
      if key in items then Some(items[key]) else None
    }

    /** `setItem`: the key now holds the value; every other key reads as before. */
    method SetItem(key: string, value: string)
      modifies this
      ensures items == old(items)[key := value]
      ensures GetItem(key) == Some(value)
      ensures forall k :: k != key ==> GetItem(k) == old(GetItem(k))
    {
      items := items[key := value];
    }

    /** `removeItem`: the key now reads as `null`; every other key reads as before. */
    method RemoveItem(key: string)
      modifies this
      ensures items == old(items) - {key}
      ensures GetItem(key) == None
      ensures forall k :: k != key ==> GetItem(k) == old(GetItem(k))
    {
      items := items - {key};
    }
  }

  /** The keys a student or teacher session writes (besides the shared `schoolId`). */
  const UserKeys: seq<string> := ["userToken", "userId", "userRole", "userEmail"]

  /** The keys an admin session writes (besides the shared `schoolId`). */
  const AdminKeys: seq<string> := ["adminToken", "adminId", "adminEmail"]

  /** Every key logout removes. */
  const SessionKeys: set<string> :=
    {"userToken", "userId", "userRole", "userEmail", "adminToken", "adminId", "adminEmail", "schoolId", "schoolName"}

  /** The fields of `data.user` / `data.admin` the client reads from a successful login reply. */
  datatype Profile = Profile(id: string, role: string, email: string)

  /**
   * What the `fetch` of a login helper ends in: a thrown error (network
   * failure or a body that is not JSON), or a parsed reply. `profile` is
   * `None` when the body has no `user` (resp. `admin`) object.
   */
  datatype LoginReply =
    | Thrown
    | Replied(ok: bool, message: string, token: string, profile: Option<Profile>)

  /** The object a login helper resolves to. */
  datatype LoginResult = Success(profile: Profile, token: string) | Failure(message: string)

  /** What `getCurrentUser` returns: each field is the stored value or `null`. */
  datatype CurrentUser = CurrentUser(token: Option<string>, id: Option<string>, role: Option<string>,
                                     email: Option<string>, schoolId: Option<string>)

  /** What `getCurrentAdmin` returns. */
  datatype CurrentAdmin = CurrentAdmin(token: Option<string>, id: Option<string>, email: Option<string>,
                                       schoolId: Option<string>)

  /** `getCurrentUser`: the stored user session, key by key. */
  function GetCurrentUser(ls: LocalStorage): (u: CurrentUser)
    reads ls
  {
    CurrentUser(ls.GetItem("userToken"), ls.GetItem("userId"), ls.GetItem("userRole"),
                ls.GetItem("userEmail"), ls.GetItem("schoolId"))
  }

  /** `getCurrentAdmin`: the stored admin session, key by key. */
  function GetCurrentAdmin(ls: LocalStorage): (a: CurrentAdmin)
    reads ls
  {
    CurrentAdmin(ls.GetItem("adminToken"), ls.GetItem("adminId"), ls.GetItem("adminEmail"), ls.GetItem("schoolId"))
  }

  /** `isUserAuthenticated`: a user token is stored. */
  function IsUserAuthenticated(ls: LocalStorage): (b: bool)
    reads ls
    ensures b <==> "userToken" in ls.items
  {
    ls.GetItem("userToken") != None
  }

  /** `isAdminAuthenticated`: an admin token is stored. */
  function IsAdminAuthenticated(ls: LocalStorage): (b: bool)
    reads ls
    ensures b <==> "adminToken" in ls.items
  {
    ls.GetItem("adminToken") != None
  }

  /**
   * `userLogin`: on a successful reply, stores the token, the user's id,
   * role and email and the requested school; the admin keys keep their
   * values. A thrown fetch or a non-ok reply leaves the storage as it
   * was. A successful reply without a `user` object throws after the
   * token is stored, so only `userToken` changes.
   */
  method UserLogin(ls: LocalStorage, schoolId: string, reply: LoginReply) returns (r: LoginResult)
    modifies ls
    ensures reply.Thrown? ==> r == Failure("Server error") && ls.items == old(ls.items)
    ensures reply.Replied? && !reply.ok ==> r == Failure(reply.message) && ls.items == old(ls.items)
    ensures reply.Replied? && reply.ok && reply.profile.None? ==>
      r == Failure("Server error") && ls.items == old(ls.items)["userToken" := reply.token]
    ensures reply.Replied? && reply.ok && reply.profile.Some? ==>
      var p := reply.profile.value;
      && r == Success(p, reply.token)
      && ls.items == old(ls.items)["userToken" := reply.token]["userId" := p.id]["userRole" := p.role]
                                  ["userEmail" := p.email]["schoolId" := schoolId]
      && GetCurrentUser(ls) == CurrentUser(Some(reply.token), Some(p.id), Some(p.role), Some(p.email), Some(schoolId))
      && IsUserAuthenticated(ls)
    ensures forall k :: k in AdminKeys ==> ls.GetItem(k) == old(ls.GetItem(k))
  {
    if reply.Thrown? {
      return Failure("Server error");
    }
    if !reply.ok {
      return Failure(reply.message);
    }
    ls.SetItem("userToken", reply.token);
    if reply.profile.None? {
      return Failure("Server error");
    }
    var p := reply.profile.value;
    ls.SetItem("userId", p.id);
    ls.SetItem("userRole", p.role);
    ls.SetItem("userEmail", p.email);
    ls.SetItem("schoolId", schoolId);
    r := Success(p, reply.token);
  }

  /**
   * `adminLogin`: on a successful reply, stores the token, the admin's id,
   * the email the caller typed (not the one the server returns) and the
   * requested school, overwriting the `schoolId` a user session may have
   * stored; the user's token, id, role and email keep their values. A
   * thrown fetch or a non-ok reply leaves the storage as it was. A
   * successful reply without an `admin` object throws after the token is
   * stored.
   */
  method AdminLogin(ls: LocalStorage, email: string, schoolId: string, reply: LoginReply) returns (r: LoginResult)
    modifies ls
    ensures reply.Thrown? ==> r == Failure("Server error") && ls.items == old(ls.items)
    ensures reply.Replied? && !reply.ok ==> r == Failure(reply.message) && ls.items == old(ls.items)
    ensures reply.Replied? && reply.ok && reply.profile.None? ==>
      r == Failure("Server error") && ls.items == old(ls.items)["adminToken" := reply.token]
    ensures reply.Replied? && reply.ok && reply.profile.Some? ==>
      var p := reply.profile.value;
      && r == Success(p, reply.token)
      && ls.items == old(ls.items)["adminToken" := reply.token]["adminId" := p.id]["adminEmail" := email]
                                  ["schoolId" := schoolId]
      && GetCurrentAdmin(ls) == CurrentAdmin(Some(reply.token), Some(p.id), Some(email), Some(schoolId))
      && IsAdminAuthenticated(ls)
    ensures forall k :: k in UserKeys ==> ls.GetItem(k) == old(ls.GetItem(k))
  {
    if reply.Thrown? {
      return Failure("Server error");
    }
    if !reply.ok {
      return Failure(reply.message);
    }
    ls.SetItem("adminToken", reply.token);
    if reply.profile.None? {
      return Failure("Server error");
    }
    var p := reply.profile.value;
    ls.SetItem("adminId", p.id);
    ls.SetItem("adminEmail", email);
    ls.SetItem("schoolId", schoolId);
    r := Success(p, reply.token);
  }

  /** Removing one more key from a map that lacks the keys removed so far. */
  lemma RemoveOneMore(m: map<string, string>, m0: map<string, string>, removed: set<string>, key: string)
    requires m == m0 - removed
    ensures m - {key} == m0 - (removed + {key})
  {
  }

  /**
   * `logout`: removes every session key, one after the other, and nothing
   * else; afterwards nobody is authenticated and both views are all `null`.
   */
  method Logout(ls: LocalStorage)
    modifies ls
    ensures ls.items == old(ls.items) - SessionKeys
    ensures !IsUserAuthenticated(ls) && !IsAdminAuthenticated(ls)
    ensures GetCurrentUser(ls) == CurrentUser(None, None, None, None, None)
    ensures GetCurrentAdmin(ls) == CurrentAdmin(None, None, None, None)
  {
    ghost var removed: set<string> := {};
    RemoveOneMore(ls.items, old(ls.items), removed, "userToken");
    ls.RemoveItem("userToken");
    removed := removed + {"userToken"};
    RemoveOneMore(ls.items, old(ls.items), removed, "userId");
    ls.RemoveItem("userId");
    removed := removed + {"userId"};
    RemoveOneMore(ls.items, old(ls.items), removed, "userRole");
    ls.RemoveItem("userRole");
    removed := removed + {"userRole"};
    RemoveOneMore(ls.items, old(ls.items), removed, "userEmail");
    ls.RemoveItem("userEmail");
    removed := removed + {"userEmail"};
    RemoveOneMore(ls.items, old(ls.items), removed, "adminToken");
    ls.RemoveItem("adminToken");
    removed := removed + {"adminToken"};
    RemoveOneMore(ls.items, old(ls.items), removed, "adminId");
    ls.RemoveItem("adminId");
    removed := removed + {"adminId"};
    RemoveOneMore(ls.items, old(ls.items), removed, "adminEmail");
    ls.RemoveItem("adminEmail");
    removed := removed + {"adminEmail"};
    RemoveOneMore(ls.items, old(ls.items), removed, "schoolId");
    ls.RemoveItem("schoolId");
    removed := removed + {"schoolId"};
    RemoveOneMore(ls.items, old(ls.items), removed, "schoolName");
    ls.RemoveItem("schoolName");
    removed := removed + {"schoolName"};
    assert removed == SessionKeys;
  }
}
