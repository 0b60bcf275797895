/**
 * The local side of the MyCloud integration (server/mycloud.rs): the session
 * guard, the mapping from MyCloud groups to synker permissions, and the
 * conversion of a MyCloud account into a local user record.
 */
module MyCloud {
  import opened Wrappers
  import opened Types
  import opened Ordering
  import opened Config

  datatype MyCloudUser = MyCloudUser(
    username: string,
    email: Option<string>,
    fullName: Option<string>,
    groups: seq<string>,
    isAdmin: bool,
    isActive: bool,
    lastLogin: Option<Timestamp>)

  /** What one group appends to the permission list, in the order it appends it. */
  function GroupPermissions(group: string): seq<string>
  {
    if group == "administrators" then ["read", "write", "delete", "share", "admin"]
    else if group == "users" then ["read", "write", "share"]
    else ["read"]
  }

  /** The permission list before sorting: each group's contribution, in group order. */
  function Granted(groups: seq<string>): seq<string>
  {
    if groups == [] then []
    else Granted(groups[..|groups| - 1]) + GroupPermissions(groups[|groups| - 1])
  }

  /** The permission list after `sort` and `dedup`. */
  function PermissionsFor(groups: seq<string>): seq<string>
  {
    Dedup(SortByKey(Granted(groups), Codes))
  }

  /**
   * Which permissions a list of groups grants, independently of the order
   * and multiplicity of the groups: any group grants read; users and
   * administrators grant write and share; administrators alone grant delete
   * and admin.
   */
  predicate Grants(groups: seq<string>, p: string)
  {
    || (p == "read" && |groups| > 0)
    || ((p == "write" || p == "share") && ("users" in groups || "administrators" in groups))
    || ((p == "delete" || p == "admin") && "administrators" in groups)
  }

  /** The mapping's result written out, one case per strongest group present. */
  function ExpectedPermissions(groups: seq<string>): seq<string>
  {
    if "administrators" in groups then ["admin", "delete", "read", "share", "write"]
    else if "users" in groups then ["read", "share", "write"]
    else if |groups| > 0 then ["read"]
    else []
  }

  /** One group's contribution, as `Grants` describes it. */
  lemma GroupMembers(group: string, p: string)
    ensures p in GroupPermissions(group) <==> Grants([group], p)
  {
  }

  /** Adding a group adds exactly what that group grants. */
  lemma GrantsSnoc(init: seq<string>, last: string, p: string)
    ensures Grants(init + [last], p) <==> Grants(init, p) || Grants([last], p)
  {
    var groups := init + [last];
    assert "users" in groups <==> "users" in init || last == "users";
    assert "administrators" in groups <==> "administrators" in init || last == "administrators";
  }

  lemma {:induction false} GrantedMembers(groups: seq<string>, p: string)
    ensures p in Granted(groups) <==> Grants(groups, p)
  {
    if groups != [] {
      var init := groups[..|groups| - 1];
      var last := groups[|groups| - 1];
      GrantedMembers(init, p);
      GroupMembers(last, p);
      assert groups == init + [last];
      GrantsSnoc(init, last, p);
    }
  }

  /** Some group grants `p` exactly when one of their contributions holds it. */
  lemma GrantsSome(groups: seq<string>, p: string)
    ensures Grants(groups, p) <==> exists i | 0 <= i < |groups| :: p in GroupPermissions(groups[i])
  {
    if Grants(groups, p) {
      if p == "read" {
        GroupMembers(groups[0], p);
      } else if "administrators" in groups {
        var i :| 0 <= i < |groups| && groups[i] == "administrators";
        GroupMembers(groups[i], p);
      } else {
        var i :| 0 <= i < |groups| && groups[i] == "users";
        GroupMembers(groups[i], p);
      }
    }
    if exists i | 0 <= i < |groups| :: p in GroupPermissions(groups[i]) {
      var i :| 0 <= i < |groups| && p in GroupPermissions(groups[i]);
      GroupMembers(groups[i], p);
      assert groups[i] in groups;
    }
  }

  /** Strings that differ in their first character are ordered by it. */
  lemma FirstCharOrders(a: string, b: string)
    requires |a| > 0 && |b| > 0 && a[0] < b[0]
    ensures LexLt(Codes(a), Codes(b))
  {
    assert Codes(a)[0] < Codes(b)[0];
  }

  /** Each of the written-out results is strictly ascending. */
  lemma ExpectedSorted(groups: seq<string>)
    ensures StrictlySortedBy(ExpectedPermissions(groups), Codes)
  {
    var e := ExpectedPermissions(groups);
    forall i, j | 0 <= i < j < |e|
      ensures LexLt(Codes(e[i]), Codes(e[j]))
    {
      FirstCharOrders(e[i], e[j]);
    }
  }

  /** `sort` then `dedup` leaves the permissions strictly ascending, hence free of duplicates. */
  lemma PermissionsSorted(groups: seq<string>)
    ensures StrictlySortedBy(PermissionsFor(groups), Codes)
  {
    var sorted := SortByKey(Granted(groups), Codes);
    SortByKeySorted(Granted(groups), Codes);
    forall x, y | x in sorted && y in sorted && Codes(x) == Codes(y)
      ensures x == y
    {
      CodesInjective(x, y);
    }
    DedupSortedStrict(sorted, Codes);
  }

  /** A permission is in the result exactly when some group grants it. */
  lemma PermissionsMembers(groups: seq<string>, p: string)
    ensures p in PermissionsFor(groups) <==> Grants(groups, p)
    ensures p in PermissionsFor(groups) <==> exists i | 0 <= i < |groups| :: p in GroupPermissions(groups[i])
  {
    var sorted := SortByKey(Granted(groups), Codes);
    assert p in sorted <==> p in Granted(groups) by {
      assert p in multiset(sorted) <==> p in multiset(Granted(groups));
    }
    GrantedMembers(groups, p);
    GrantsSome(groups, p);
  }

  /** The written-out list holds exactly the granted permissions. */
  lemma ExpectedMembers(groups: seq<string>, p: string)
    ensures p in ExpectedPermissions(groups) <==> Grants(groups, p)
  {
  }

  /** The mapping's result is exactly the written-out list. */
  lemma PermissionsExact(groups: seq<string>)
    ensures PermissionsFor(groups) == ExpectedPermissions(groups)
  {
    var r := PermissionsFor(groups);
    var e := ExpectedPermissions(groups);
    PermissionsSorted(groups);
    ExpectedSorted(groups);
    forall p
      ensures p in r <==> p in e
    {
      PermissionsMembers(groups, p);
      ExpectedMembers(groups, p);
    }
    StrictlySortedUnique(r, e, Codes);
  }

  /** The result depends only on which groups occur: order and repetition do not matter. */
  lemma PermissionsOrderInsensitive(a: seq<string>, b: seq<string>)
    requires forall g :: g in a <==> g in b
    ensures PermissionsFor(a) == PermissionsFor(b)
  {
    PermissionsExact(a);
    PermissionsExact(b);
    ExpectedSameGroups(a, b);
  }

  /** The written-out list depends only on which groups occur. */
  lemma ExpectedSameGroups(a: seq<string>, b: seq<string>)
    requires forall g :: g in a <==> g in b
    ensures ExpectedPermissions(a) == ExpectedPermissions(b)
  {
    assert ("administrators" in a <==> "administrators" in b) && ("users" in a <==> "users" in b);
    assert |a| > 0 <==> |b| > 0 by {
      if |a| > 0 {
        assert a[0] in b;
      }
      if |b| > 0 {
        assert b[0] in a;
      }
    }
  }

  /** The mapping for one group of each kind, and for none. */
  lemma PermissionsExamples()
    ensures PermissionsFor(["administrators"]) == ["admin", "delete", "read", "share", "write"]
    ensures PermissionsFor(["users"]) == ["read", "share", "write"]
    ensures PermissionsFor(["guests"]) == ["read"]
    ensures PermissionsFor(["staff"]) == ["read"]
    ensures PermissionsFor([]) == []
  {
    PermissionsExact(["administrators"]);
    PermissionsExact(["users"]);
    PermissionsExact(["guests"]);
    PermissionsExact(["staff"]);
    PermissionsExact([]);
  }

  /** `MyCloudIntegration`: the HTTP client is not modelled, only the settings and the session. */
  class MyCloudIntegration {
    const config: MyCloudSettings
    var sessionToken: Option<string>

    /** `MyCloudIntegration::new`: no session until the administrator signs in. */
    constructor(config: MyCloudSettings)
      ensures this.config == config
      ensures sessionToken == None
    {
      this.config := config;
      sessionToken := None;
    }

    /** `ensure_authenticated`: the calls to MyCloud need a session token. */
    function EnsureAuthenticated(): (r: Result<(), string>)
      reads this
      ensures r.Err? <==> sessionToken.None?
      ensures r.Err? ==> r.error == "Not authenticated with MyCloud"
    {
      if sessionToken.None? then Err("Not authenticated with MyCloud") else Ok(())
    }

    /**
     * `map_mycloud_permissions`: appends each group's permissions, then
     * sorts and removes repeats.
     */
    method MapMyCloudPermissions(groups: seq<string>) returns (permissions: seq<string>)
      ensures permissions == PermissionsFor(groups)
      ensures StrictlySortedBy(permissions, Codes)
      ensures forall p :: p in permissions <==> Grants(groups, p)
    {
      permissions := [];
      for i := 0 to |groups|
        invariant permissions == Granted(groups[..i])
      {
        var group := groups[i];
        if group == "administrators" {
          permissions := permissions + ["read", "write", "delete", "share", "admin"];
        } else if group == "users" {
          permissions := permissions + ["read", "write", "share"];
        } else if group == "guests" {
          permissions := permissions + ["read"];
        } else {
          permissions := permissions + ["read"];
        }
        assert groups[..i + 1][..i] == groups[..i];
      }
      assert groups[..|groups|] == groups;
      permissions := SortByKey(permissions, Codes);
      permissions := Dedup(permissions);
      PermissionsSorted(groups);
      forall p
        ensures p in permissions <==> Grants(groups, p)
      {
        PermissionsMembers(groups, p);
      }
    }

    /**
     * `sync_user_to_local`: the MyCloud account becomes a local user with the
     * given password hash; the fresh id and the creation time are the caller's.
     */
    method SyncUserToLocal(account: MyCloudUser, passwordHash: string, id: Uuid, now: Timestamp)
      returns (r: Result<User, string>)
      ensures r.Ok?
      ensures r.value.id == id && r.value.createdAt == now
      ensures r.value.username == account.username && r.value.email == account.email
      ensures r.value.passwordHash == passwordHash
      ensures r.value.lastLogin == account.lastLogin && r.value.isActive == account.isActive
      ensures r.value.permissions == PermissionsFor(account.groups)
      ensures forall p :: p in r.value.permissions <==> Grants(account.groups, p)
    {
      var permissions := MapMyCloudPermissions(account.groups);
      r := Ok(User(id, account.username, account.email, passwordHash, now, account.lastLogin, account.isActive, permissions));
    }
  }
}
