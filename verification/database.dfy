/**
 * `Database` (server/database.rs): the four tables as sequences of rows in
 * insertion order, and the queries the server runs against them. A query is a
 * function of the table contents; `fetch_optional` yields the first matching
 * row, `ORDER BY` sorts the matching rows by the named column.
 */
module Database {
  import opened Wrappers
  import opened Types
  import opened Ordering

  // ---------------------------------------------------------------------------
  // Column conversions

  /** `x as i64` on a `u64`: two's complement reinterpretation. */
  function AsI64(x: u64): (r: i64)
    ensures x < I64_LIMIT ==> r == x
    ensures x >= I64_LIMIT ==> r == x - U64_LIMIT
  {
    if x < I64_LIMIT then x else x - U64_LIMIT
  }

  /** `x as u64` on an `i64`. */
  function AsU64(x: i64): (r: u64)
    ensures x >= 0 ==> r == x
    ensures x < 0 ==> r == x + U64_LIMIT
  {
    if x >= 0 then x else x + U64_LIMIT
  }

  /** `x as i32` on a `u32`. */
  function AsI32(x: u32): (r: i32)
    ensures x < I32_LIMIT ==> r == x
    ensures x >= I32_LIMIT ==> r == x - U32_LIMIT
  {
    if x < I32_LIMIT then x else x - U32_LIMIT
  }

  /** `x as u32` on an `i32`. */
  function AsU32(x: i32): (r: u32)
    ensures x >= 0 ==> r == x
    ensures x < 0 ==> r == x + U32_LIMIT
  {
    if x >= 0 then x else x + U32_LIMIT
  }

  /** The size column survives the round trip through `i64` for every `u64`, not only those below `i64::MAX`. */
  lemma SizeRoundTrip(x: u64)
    ensures AsU64(AsI64(x)) == x
    ensures AsI64(x) < 0 <==> x >= I64_LIMIT
  {
  }

  lemma CountRoundTrip(x: u32)
    ensures AsU32(AsI32(x)) == x
    ensures AsI32(x) < 0 <==> x >= I32_LIMIT
  {
  }

  /** A row of `file_metadata`: the size is stored as a signed 64-bit integer. */
  datatype FileRow = FileRow(
    id: Uuid,
    name: string,
    path: string,
    size: i64,
    mimeType: string,
    checksum: string,
    createdAt: Timestamp,
    modifiedAt: Timestamp,
    ownerId: Uuid,
    isDirectory: bool,
    parentId: Option<Uuid>,
    permissions: FilePermissions)

  function ToFileRow(m: FileMetadata): (r: FileRow)
  {
    FileRow(m.id, m.name, m.path, AsI64(m.size), m.mimeType, m.checksum, m.createdAt, m.modifiedAt,
            m.ownerId, m.isDirectory, m.parentId, m.permissions)
  }

  function FromFileRow(r: FileRow): (m: FileMetadata)
  {
    FileMetadata(r.id, r.name, r.path, AsU64(r.size), r.mimeType, r.checksum, r.createdAt, r.modifiedAt,
                 r.ownerId, r.isDirectory, r.parentId, r.permissions)
  }

  /** Storing a record and reading it back gives the record. */
  lemma FileRowRoundTrip(m: FileMetadata)
    ensures FromFileRow(ToFileRow(m)) == m
  {
    SizeRoundTrip(m.size);
  }

  /** A row of `share_links`: the counters are stored as signed 32-bit integers. */
  datatype ShareRow = ShareRow(
    id: Uuid,
    fileId: Uuid,
    createdBy: Uuid,
    shareToken: string,
    expiresAt: Option<Timestamp>,
    passwordProtected: bool,
    downloadCount: i32,
    maxDownloads: Option<i32>,
    createdAt: Timestamp)

  function ToShareRow(l: ShareLink): (r: ShareRow)
  {
    ShareRow(l.id, l.fileId, l.createdBy, l.shareToken, l.expiresAt, l.passwordProtected,
             AsI32(l.downloadCount),
             match l.maxDownloads case None => None case Some(x) => Some(AsI32(x)),
             l.createdAt)
  }

  function FromShareRow(r: ShareRow): (l: ShareLink)
  {
    ShareLink(r.id, r.fileId, r.createdBy, r.shareToken, r.expiresAt, r.passwordProtected,
              AsU32(r.downloadCount),
              match r.maxDownloads case None => None case Some(x) => Some(AsU32(x)),
              r.createdAt)
  }

  lemma ShareRowRoundTrip(l: ShareLink)
    ensures FromShareRow(ToShareRow(l)) == l
  {
    CountRoundTrip(l.downloadCount);
    if l.maxDownloads.Some? {
      CountRoundTrip(l.maxDownloads.value);
    }
  }

  // ---------------------------------------------------------------------------
  // Query building blocks

  /** The position of the first row satisfying `p`, as `fetch_optional` returns it. */
  function FindFirst<T>(s: seq<T>, p: T -> bool): (r: Option<nat>)
    ensures r.None? <==> forall i | 0 <= i < |s| :: !p(s[i])
    ensures r.Some? ==> r.value < |s| && p(s[r.value]) && forall i | 0 <= i < r.value :: !p(s[i])
  {
    if s == [] then None
    else if p(s[0]) then Some(0)
    else
      match FindFirst(s[1..], p)
      case None => None
      case Some(i) => Some(i + 1)
  }

  /** A row appended behind rows that do not match is found. */
  lemma {:induction false} FindFirstAppend<T>(s: seq<T>, x: T, p: T -> bool)
    requires forall i | 0 <= i < |s| :: !p(s[i])
    requires p(x)
    ensures FindFirst(s + [x], p) == Some(|s|)
  {
    if s != [] {
      FindFirstAppend(s[1..], x, p);
      assert (s + [x])[1..] == s[1..] + [x];
    }
  }

  /** The rows satisfying `p`, in table order (a `WHERE` clause). */
  function Where<T(!new)>(s: seq<T>, p: T -> bool): (r: seq<T>)
    ensures forall i | 0 <= i < |r| :: p(r[i])
    ensures forall x :: multiset(r)[x] == if p(x) then multiset(s)[x] else 0
  {
    if s == [] then []
    else
      var rest := Where(s[1..], p);
      assert s == [s[0]] + s[1..];
      if p(s[0]) then [s[0]] + rest else rest
  }

  // ---------------------------------------------------------------------------
  // Queries

  /** `SELECT * FROM users WHERE username = ?1`. */
  function UserByUsername(users: seq<User>, username: string): (r: Option<User>)
    ensures r.Some? <==> exists i | 0 <= i < |users| :: users[i].username == username
    ensures r.Some? ==> r.value in users && r.value.username == username
  {
    match FindFirst(users, (u: User) => u.username == username)
    case None => None
    case Some(i) => Some(users[i])
  }

  /** `SELECT * FROM file_metadata WHERE id = ?1`. */
  function FileById(files: seq<FileRow>, id: Uuid): (r: Option<FileMetadata>)
    ensures r.Some? <==> exists i | 0 <= i < |files| :: files[i].id == id
    ensures r.Some? ==> r.value.id == id && exists i | 0 <= i < |files| :: r.value == FromFileRow(files[i])
  {
    match FindFirst(files, (f: FileRow) => f.id == id)
    case None => None
    case Some(i) => Some(FromFileRow(files[i]))
  }

  /**
   * `WHERE parent_id = ?1 AND owner_id = ?2 ORDER BY name`. In SQL a NULL
   * never equals anything, so asking for the top level (no parent) matches
   * no row.
   */
  function DirectoryRows(files: seq<FileRow>, parentId: Option<Uuid>, ownerId: Uuid): (r: seq<FileRow>)
    ensures parentId.None? ==> r == []
  {
    match parentId
    case None => []
    case Some(p) =>
      SortByKey(Where(files, (f: FileRow) => f.parentId == Some(p) && f.ownerId == ownerId), (f: FileRow) => Codes(f.name))
  }

  /** `WHERE owner_id = ?1 AND modified_at > ?2 ORDER BY modified_at`. */
  function ChangedRows(files: seq<FileRow>, userId: Uuid, since: Timestamp): (r: seq<FileRow>)
  {
    SortByKey(Where(files, (f: FileRow) => f.ownerId == userId && f.modifiedAt > since), (f: FileRow) => [f.modifiedAt])
  }

  /** Each changed row is reported as a modification carrying its metadata. */
  function ChangeOf(row: FileRow): (c: FileChange)
  {
    FileChange(row.id, Modified, row.path, Some(FromFileRow(row)), row.modifiedAt)
  }

  /** `SELECT * FROM sync_sessions WHERE user_id = ?1 AND device_id = ?2`. */
  function SessionFor(sessions: seq<SyncSession>, userId: Uuid, deviceId: string): (r: Option<SyncSession>)
    ensures r.Some? <==> exists i | 0 <= i < |sessions| :: sessions[i].userId == userId && sessions[i].deviceId == deviceId
    ensures r.Some? ==> r.value in sessions && r.value.userId == userId && r.value.deviceId == deviceId
  {
    match FindFirst(sessions, (s: SyncSession) => s.userId == userId && s.deviceId == deviceId)
    case None => None
    case Some(i) => Some(sessions[i])
  }

  /** `SELECT * FROM share_links WHERE share_token = ?1`: the first row with the token, in row order. */
  function LinkByToken(links: seq<ShareRow>, token: string): (r: Option<ShareLink>)
    ensures r.Some? <==> exists i | 0 <= i < |links| :: links[i].shareToken == token
    ensures r.Some? ==> r.value.shareToken == token
    ensures r.Some? ==> exists i | 0 <= i < |links| ::
      && links[i].shareToken == token
      && r.value == FromShareRow(links[i])
      && forall j | 0 <= j < i :: links[j].shareToken != token
  {
    match FindFirst(links, (l: ShareRow) => l.shareToken == token)
    case None => None
    case Some(i) => Some(FromShareRow(links[i]))
  }

  /** `UPDATE users SET last_login = ?1 WHERE id = ?2`. */
  function WithLastLogin(users: seq<User>, userId: Uuid, at: Timestamp): (r: seq<User>)
    ensures |r| == |users|
  {
    seq(|users|, i requires 0 <= i < |users| =>
      if users[i].id == userId then users[i].(lastLogin := Some(at)) else users[i])
  }

  /** `UPDATE sync_sessions SET last_sync = ?1, sync_folders = ?2, is_active = ?3 WHERE id = ?4`. */
  function WithSession(sessions: seq<SyncSession>, s: SyncSession): (r: seq<SyncSession>)
    ensures |r| == |sessions|
  {
    seq(|sessions|, i requires 0 <= i < |sessions| =>
      if sessions[i].id == s.id
      then sessions[i].(lastSync := s.lastSync, syncFolders := s.syncFolders, isActive := s.isActive)
      else sessions[i])
  }

  // ---------------------------------------------------------------------------
  // Properties of the queries

  /** The listing holds exactly the owner's rows under that parent, ordered by name. */
  lemma DirectoryRowsQuery(files: seq<FileRow>, parent: Uuid, ownerId: Uuid)
    ensures var r := DirectoryRows(files, Some(parent), ownerId);
      && SortedBy(r, (f: FileRow) => Codes(f.name))
      && (forall i | 0 <= i < |r| :: r[i].parentId == Some(parent) && r[i].ownerId == ownerId)
      && (forall f :: multiset(r)[f] == if f.parentId == Some(parent) && f.ownerId == ownerId then multiset(files)[f] else 0)
  {
    var p := (f: FileRow) => f.parentId == Some(parent) && f.ownerId == ownerId;
    var key := (f: FileRow) => Codes(f.name);
    var w := Where(files, p);
    SortByKeySorted(w, key);
    var r := SortByKey(w, key);
    forall i | 0 <= i < |r|
      ensures p(r[i])
    {
      assert r[i] in multiset(w);
    }
  }

  /** The changes hold exactly the user's rows modified after the cursor, oldest first. */
  lemma ChangedRowsQuery(files: seq<FileRow>, userId: Uuid, since: Timestamp)
    ensures var r := ChangedRows(files, userId, since);
      && (forall i, j | 0 <= i < j < |r| :: r[i].modifiedAt <= r[j].modifiedAt)
      && (forall i | 0 <= i < |r| :: r[i].ownerId == userId && r[i].modifiedAt > since)
      && (forall f :: multiset(r)[f] == if f.ownerId == userId && f.modifiedAt > since then multiset(files)[f] else 0)
  {
    var p := (f: FileRow) => f.ownerId == userId && f.modifiedAt > since;
    var key := (f: FileRow) => [f.modifiedAt];
    var w := Where(files, p);
    SortByKeySorted(w, key);
    var r := SortByKey(w, key);
    forall i, j | 0 <= i < j < |r|
      ensures r[i].modifiedAt <= r[j].modifiedAt
    {
      assert LexLe(key(r[i]), key(r[j]));
      LexLeCons(r[i].modifiedAt, [], r[j].modifiedAt, []);
    }
    forall i | 0 <= i < |r|
      ensures p(r[i])
    {
      assert r[i] in multiset(w);
    }
  }

  /** Asking from the latest modification onwards yields nothing. */
  lemma NoChangesAfterLatest(files: seq<FileRow>, userId: Uuid, since: Timestamp)
    requires forall i | 0 <= i < |files| :: files[i].ownerId == userId ==> files[i].modifiedAt <= since
    ensures ChangedRows(files, userId, since) == []
  {
  }

  /** A user inserted under a fresh username is the one found by it. */
  lemma UserCreatedThenFound(users: seq<User>, u: User)
    requires forall i | 0 <= i < |users| :: users[i].username != u.username
    ensures UserByUsername(users + [u], u.username) == Some(u)
  {
    FindFirstAppend(users, u, (x: User) => x.username == u.username);
  }

  /** A record inserted under a fresh id reads back unchanged. */
  lemma FileCreatedThenFound(files: seq<FileRow>, m: FileMetadata)
    requires forall i | 0 <= i < |files| :: files[i].id != m.id
    ensures FileById(files + [ToFileRow(m)], m.id) == Some(m)
  {
    FindFirstAppend(files, ToFileRow(m), (f: FileRow) => f.id == m.id);
    FileRowRoundTrip(m);
  }

  lemma SessionCreatedThenFound(sessions: seq<SyncSession>, s: SyncSession)
    requires forall i | 0 <= i < |sessions| :: sessions[i].userId != s.userId || sessions[i].deviceId != s.deviceId
    ensures SessionFor(sessions + [s], s.userId, s.deviceId) == Some(s)
  {
    FindFirstAppend(sessions, s, (x: SyncSession) => x.userId == s.userId && x.deviceId == s.deviceId);
  }

  lemma LinkCreatedThenFound(links: seq<ShareRow>, l: ShareLink)
    requires forall i | 0 <= i < |links| :: links[i].shareToken != l.shareToken
    ensures LinkByToken(links + [ToShareRow(l)], l.shareToken) == Some(l)
  {
    FindFirstAppend(links, ToShareRow(l), (x: ShareRow) => x.shareToken == l.shareToken);
    ShareRowRoundTrip(l);
  }

  /** Updating the last login touches that column of the rows with that id and nothing else. */
  lemma LastLoginUpdate(users: seq<User>, userId: Uuid, at: Timestamp, i: int)
    requires 0 <= i < |users|
    ensures var r := WithLastLogin(users, userId, at);
      && r[i].(lastLogin := users[i].lastLogin) == users[i]
      && (users[i].id == userId ==> r[i].lastLogin == Some(at))
      && (users[i].id != userId ==> r[i] == users[i])
  {
  }

  /**
   * Updating a session replaces its sync cursor, folders and active flag and
   * keeps its user, device and name; other sessions are unchanged.
   */
  lemma SessionUpdate(sessions: seq<SyncSession>, s: SyncSession, i: int)
    requires 0 <= i < |sessions|
    ensures var r := WithSession(sessions, s);
      && r[i].id == sessions[i].id && r[i].userId == sessions[i].userId
      && r[i].deviceId == sessions[i].deviceId && r[i].deviceName == sessions[i].deviceName
      && (sessions[i].id == s.id ==> r[i].lastSync == s.lastSync && r[i].syncFolders == s.syncFolders && r[i].isActive == s.isActive)
      && (sessions[i].id != s.id ==> r[i] == sessions[i])
  {
  }

  /** After an update, the lookup by user and device sees the new cursor when it finds the updated session. */
  lemma {:induction false} SessionUpdateThenFound(sessions: seq<SyncSession>, s: SyncSession, userId: Uuid, deviceId: string)
    requires SessionFor(sessions, userId, deviceId).Some? && SessionFor(sessions, userId, deviceId).value.id == s.id
    ensures var found := SessionFor(WithSession(sessions, s), userId, deviceId);
      && found.Some?
      && found.value == SessionFor(sessions, userId, deviceId).value.(lastSync := s.lastSync, syncFolders := s.syncFolders, isActive := s.isActive)
  {
    var p := (x: SyncSession) => x.userId == userId && x.deviceId == deviceId;
    var i := FindFirst(sessions, p).value;
    var r := WithSession(sessions, s);
    forall j | 0 <= j < |r|
      ensures p(r[j]) == p(sessions[j])
    {
      SessionUpdate(sessions, s, j);
    }
    FindFirstSame(sessions, r, p);
  }

  /** Rows that match alike are found alike. */
  lemma {:induction false} FindFirstSame<T>(a: seq<T>, b: seq<T>, p: T -> bool)
    requires |a| == |b| && forall j | 0 <= j < |a| :: p(a[j]) == p(b[j])
    ensures FindFirst(a, p) == FindFirst(b, p)
  {
    if a != [] {
      FindFirstSame(a[1..], b[1..], p);
    }
  }

  /** The loop of `list_files_in_directory` that turns each fetched row into a record. */
  method RecordsOf(rows: seq<FileRow>) returns (r: seq<FileMetadata>)
    ensures |r| == |rows| && forall i | 0 <= i < |r| :: r[i] == FromFileRow(rows[i])
  {
    r := [];
    for i := 0 to |rows|
      invariant |r| == i
      invariant forall j | 0 <= j < i :: r[j] == FromFileRow(rows[j])
    {
      r := r + [FromFileRow(rows[i])];
    }
  }

  /** The loop of `get_files_changed_since` that turns each fetched row into a change. */
  method ChangesOf(rows: seq<FileRow>) returns (r: seq<FileChange>)
    ensures |r| == |rows| && forall i | 0 <= i < |r| :: r[i] == ChangeOf(rows[i])
  {
    r := [];
    for i := 0 to |rows|
      invariant |r| == i
      invariant forall j | 0 <= j < i :: r[j] == ChangeOf(rows[j])
    {
      r := r + [ChangeOf(rows[i])];
    }
  }

  // ---------------------------------------------------------------------------
  // The database

  class Database {
    var users: seq<User>
    var files: seq<FileRow>
    var sessions: seq<SyncSession>
    var links: seq<ShareRow>

    /** `Database::new`: the pool opens the tables as the migrations leave them. */
    constructor (users: seq<User>, files: seq<FileRow>, sessions: seq<SyncSession>, links: seq<ShareRow>)
      ensures this.users == users && this.files == files && this.sessions == sessions && this.links == links
    {
      this.users := users;
      this.files := files;
      this.sessions := sessions;
      this.links := links;
    }

    /** `create_user`. */
    method CreateUser(user: User)
      modifies this
      ensures users == old(users) + [user]
      ensures files == old(files) && sessions == old(sessions) && links == old(links)
    {
      users := users + [user];
    }

    /** `get_user_by_username`. */
    function GetUserByUsername(username: string): (r: Option<User>)
      reads this
      ensures r == UserByUsername(users, username)
    {
      UserByUsername(users, username)
    }

    /** `update_last_login`. */
    method UpdateLastLogin(userId: Uuid, lastLogin: Timestamp)
      modifies this
      ensures users == WithLastLogin(old(users), userId, lastLogin)
      ensures files == old(files) && sessions == old(sessions) && links == old(links)
    {
      users := WithLastLogin(users, userId, lastLogin);
    }

    /** `create_file_metadata`. */
    method CreateFileMetadata(metadata: FileMetadata)
      modifies this
      ensures files == old(files) + [ToFileRow(metadata)]
      ensures users == old(users) && sessions == old(sessions) && links == old(links)
    {
      files := files + [ToFileRow(metadata)];
    }

    /** `get_file_metadata`. */
    function GetFileMetadata(fileId: Uuid): (r: Option<FileMetadata>)
      reads this
      ensures r == FileById(files, fileId)
    {
      FileById(files, fileId)
    }

    /** `list_files_in_directory`: the query's rows converted one by one. */
    method ListFilesInDirectory(parentId: Option<Uuid>, ownerId: Uuid) returns (r: seq<FileMetadata>)
      ensures var rows := DirectoryRows(files, parentId, ownerId);
        |r| == |rows| && forall i | 0 <= i < |r| :: r[i] == FromFileRow(rows[i])
    {
      r := RecordsOf(DirectoryRows(files, parentId, ownerId));
    }

    /** `create_sync_session`. */
    method CreateSyncSession(session: SyncSession)
      modifies this
      ensures sessions == old(sessions) + [session]
      ensures users == old(users) && files == old(files) && links == old(links)
    {
      sessions := sessions + [session];
    }

    /** `get_sync_session`. */
    function GetSyncSession(userId: Uuid, deviceId: string): (r: Option<SyncSession>)
      reads this
      ensures r == SessionFor(sessions, userId, deviceId)
    {
      SessionFor(sessions, userId, deviceId)
    }

    /** `update_sync_session`. */
    method UpdateSyncSession(session: SyncSession)
      modifies this
      ensures sessions == WithSession(old(sessions), session)
      ensures users == old(users) && files == old(files) && links == old(links)
    {
      sessions := WithSession(sessions, session);
    }

    /** `create_share_link`. */
    method CreateShareLink(shareLink: ShareLink)
      modifies this
      ensures links == old(links) + [ToShareRow(shareLink)]
      ensures users == old(users) && files == old(files) && sessions == old(sessions)
    {
      links := links + [ToShareRow(shareLink)];
    }

    /** `get_share_link_by_token`. */
    function GetShareLinkByToken(token: string): (r: Option<ShareLink>)
      reads this
      ensures r == LinkByToken(links, token)
    {
      LinkByToken(links, token)
    }

    /** `get_files_changed_since`: one modification per changed row, in the query's order. */
    method GetFilesChangedSince(userId: Uuid, since: Timestamp) returns (r: seq<FileChange>)
      ensures var rows := ChangedRows(files, userId, since);
        |r| == |rows| && forall i | 0 <= i < |r| :: r[i] == ChangeOf(rows[i])
    {
      r := ChangesOf(ChangedRows(files, userId, since));
    }
  }

  /** What a client receives from the changes query: modifications of its own files after the cursor, oldest first. */
  lemma ChangesReported(files: seq<FileRow>, userId: Uuid, since: Timestamp, r: seq<FileChange>)
    requires var rows := ChangedRows(files, userId, since);
      |r| == |rows| && forall i | 0 <= i < |r| :: r[i] == ChangeOf(rows[i])
    ensures forall i | 0 <= i < |r| ::
      && r[i].changeType == Modified
      && r[i].metadata.Some?
      && r[i].metadata.value.ownerId == userId
      && r[i].timestamp == r[i].metadata.value.modifiedAt > since
      && r[i].fileId == r[i].metadata.value.id
      && r[i].path == r[i].metadata.value.path
    ensures forall i, j | 0 <= i < j < |r| :: r[i].timestamp <= r[j].timestamp
  {
    ChangedRowsQuery(files, userId, since);
  }
}
