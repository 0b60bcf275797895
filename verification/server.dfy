/**
 * Server start-up (server/synker_server.rs): the filesystem service sized by
 * the configured limit, and the creation of the initial administrator.
 */
module Server {
  import opened Wrappers
  import opened Types
  import opened Config
  import opened Paths
  import opened Disk
  import opened FileSystem
  import opened Database
  import MyCloud

  const BYTES_PER_MB: nat := 1024 * 1024

  /**
   * `max_file_size_mb * 1024 * 1024` on `u64`; a release build wraps on
   * overflow.
   */
  function MaxFileSizeBytes(mb: u64): u64
  {
    (mb * BYTES_PER_MB) % U64_LIMIT
  }

  /** Below 2^44 MB the conversion is exact. */
  lemma MaxFileSizeExact(mb: u64)
    requires mb < 0x1000_0000_0000
    ensures MaxFileSizeBytes(mb) == mb * BYTES_PER_MB
    ensures MaxFileSizeBytes(mb) / BYTES_PER_MB == mb
  {
    assert mb * BYTES_PER_MB < U64_LIMIT;
  }

  /** The conversion is monotone while it is exact. */
  lemma MaxFileSizeMonotone(a: u64, b: u64)
    requires a <= b < 0x1000_0000_0000
    ensures MaxFileSizeBytes(a) <= MaxFileSizeBytes(b)
  {
    MaxFileSizeExact(a);
    MaxFileSizeExact(b);
  }

  /** From 2^44 MB on the product wraps: 2^44 MB is a limit of 0 bytes. */
  lemma MaxFileSizeWraps()
    ensures MaxFileSizeBytes(0x1000_0000_0000) == 0
    ensures MaxFileSizeBytes(0x1000_0000_0001) == BYTES_PER_MB
  {
  }

  /** The default 1024 MB is a limit of 1 GiB. */
  lemma DefaultMaxFileSize()
    ensures MaxFileSizeBytes(Default().filesystem.maxFileSizeMb) == 1024 * 1024 * 1024
  {
    MaxFileSizeExact(1024);
  }

  /** The filesystem service as `main` builds it from the configuration. */
  method StartFileSystem(config: ServerConfig, env: Env, disk: Tree) returns (r: Result<FileSystemService, FsError>)
    requires IsKey(env.cwd) && Disk.Valid(disk)
    ensures r.Ok? ==> fresh(r.value) && r.value.Valid()
    ensures r.Ok? ==> r.value.settings == Settings(FromStr(config.filesystem.basePath), MaxFileSizeBytes(config.filesystem.maxFileSizeMb), env)
  {
    r := FileSystemService.New(FromStr(config.filesystem.basePath), MaxFileSizeBytes(config.filesystem.maxFileSizeMb), env, disk);
  }

  const ADMIN_PERMISSIONS: seq<string> := ["read", "write", "delete", "share", "admin"]

  /** The administrator record `create_initial_admin` inserts. */
  function AdminUser(username: string, passwordHash: string, id: Uuid, now: Timestamp): User
  {
    User(id, username, Some(username + "@localhost"), passwordHash, now, None, true, ADMIN_PERMISSIONS)
  }

  /** Only a lookup that succeeds and finds the user skips the insert; a failed lookup does not. */
  predicate AdminFound(lookup: Result<Option<User>, string>)
  {
    lookup.Ok? && lookup.value.Some?
  }

  /**
   * `get_user_by_username` with the database error it may return: the
   * failure, when there is one, is supplied by the caller.
   */
  function Lookup(users: seq<User>, username: string, lookupFailure: Option<string>): Result<Option<User>, string>
  {
    if lookupFailure.Some? then Err(lookupFailure.value) else Ok(UserByUsername(users, username))
  }

  /**
   * `create_initial_admin` on the user table: the outcome and the new table.
   * `hash` is what `hash_password` returned for the configured password.
   */
  function InitialAdmin(users: seq<User>, username: string, lookupFailure: Option<string>,
                        hash: Result<string, string>, id: Uuid, now: Timestamp): (Result<(), string>, seq<User>)
  {
    if AdminFound(Lookup(users, username, lookupFailure)) then (Ok(()), users)
    else if hash.Err? then (Err(hash.error), users)
    else (Ok(()), users + [AdminUser(username, hash.value, id, now)])
  }

  /** An administrator already on file is left alone. */
  lemma AdminKeptWhenPresent(users: seq<User>, username: string, hash: Result<string, string>, id: Uuid, now: Timestamp)
    requires exists i | 0 <= i < |users| :: users[i].username == username
    ensures InitialAdmin(users, username, None, hash, id, now) == (Ok(()), users)
  {
  }

  /**
   * Otherwise, or when the lookup fails, exactly one user is appended, with
   * the administrator's fields; a failed hash inserts nothing and is reported.
   */
  lemma AdminInserted(users: seq<User>, username: string, lookupFailure: Option<string>,
                      hash: Result<string, string>, id: Uuid, now: Timestamp)
    requires lookupFailure.Some? || forall i | 0 <= i < |users| :: users[i].username != username
    ensures var (r, after) := InitialAdmin(users, username, lookupFailure, hash, id, now);
      && (hash.Err? ==> r == Err(hash.error) && after == users)
      && (hash.Ok? ==> r == Ok(()) && |after| == |users| + 1 && after[..|users|] == users)
      && (hash.Ok? ==> var admin := after[|users|];
           && admin.id == id && admin.username == username
           && admin.email == Some(username + "@localhost") && admin.passwordHash == hash.value
           && admin.createdAt == now && admin.lastLogin == None && admin.isActive
           && admin.permissions == ["read", "write", "delete", "share", "admin"])
  {
    if lookupFailure.None? {
      assert UserByUsername(users, username).None?;
    }
    if hash.Ok? {
      var after := users + [AdminUser(username, hash.value, id, now)];
      assert after[..|users|] == users;
    }
  }

  /** Once created, the administrator is what the lookup finds, so a second start changes nothing. */
  lemma AdminCreationIdempotent(users: seq<User>, username: string, hash: string, id: Uuid, now: Timestamp,
                                hash2: Result<string, string>, id2: Uuid, now2: Timestamp)
    requires forall i | 0 <= i < |users| :: users[i].username != username
    ensures var after := InitialAdmin(users, username, None, Ok(hash), id, now).1;
      && UserByUsername(after, username) == Some(AdminUser(username, hash, id, now))
      && InitialAdmin(after, username, None, hash2, id2, now2) == (Ok(()), after)
  {
    UserCreatedThenFound(users, AdminUser(username, hash, id, now));
  }

  /**
   * The administrator holds the same permissions as a MyCloud administrator,
   * but in insertion order rather than the mapping's sorted order.
   */
  lemma AdminPermissionsAsGroup()
    ensures forall p :: p in ADMIN_PERMISSIONS <==> p in MyCloud.PermissionsFor(["administrators"])
    ensures ADMIN_PERMISSIONS != MyCloud.PermissionsFor(["administrators"])
  {
    MyCloud.PermissionsExact(["administrators"]);
    assert ADMIN_PERMISSIONS[0] != "admin";
  }

  /** `create_initial_admin` against the database, with the configured administrator name. */
  method CreateInitialAdmin(db: Database, config: ServerConfig, lookupFailure: Option<string>,
                            hash: Result<string, string>, id: Uuid, now: Timestamp) returns (r: Result<(), string>)
    modifies db
    ensures (r, db.users) == InitialAdmin(old(db.users), config.mycloud.adminUsername, lookupFailure, hash, id, now)
    ensures db.files == old(db.files) && db.sessions == old(db.sessions) && db.links == old(db.links)
  {
    var username := config.mycloud.adminUsername;
    var lookup := if lookupFailure.Some? then Err(lookupFailure.value) else Ok(db.GetUserByUsername(username));
    if lookup.Ok? && lookup.value.Some? {
      return Ok(());
    }
    if hash.Err? {
      return Err(hash.error);
    }
    var admin := User(id, username, Some(username + "@localhost"), hash.value, now, None, true,
                      ["read", "write", "delete", "share", "admin"]);
    db.CreateUser(admin);
    return Ok(());
  }
}
