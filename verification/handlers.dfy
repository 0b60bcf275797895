/**
 * The decision logic of the HTTP handlers (server/handlers.rs) that combine
 * the storage engine and the metadata store: where an upload or a new folder
 * goes, when an upload is refused, whose id the stored records carry, which
 * cursor a sync uses, and when a share link is granted.
 *
 * A handler either answers with an `ApiResponse` envelope (which may itself
 * report a refusal) or fails with an HTTP status code.
 */
module Handlers {
  import opened Wrappers
  import opened Types
  import opened Paths
  import opened Disk
  import opened FileSystem
  import opened Database
  import opened Parsing
  import opened Ordering

  type StatusCode = int

  const BAD_REQUEST: StatusCode := 400
  const NOT_FOUND: StatusCode := 404
  const INTERNAL_SERVER_ERROR: StatusCode := 500

  /** What a handler returns: a JSON envelope, or a bare status code. */
  type Reply<T> = Result<ApiResponse<T>, StatusCode>

  /** The decoded query string. */
  type Params = map<string, string>

  /** The JWT claims the authentication layer attaches to the request. */
  datatype Claims = Claims(sub: string, username: string, exp: i64, iat: i64, deviceId: Option<string>)

  /** What a handler takes from outside: `Uuid::parse_str` and the clock. */
  datatype Context = Context(parseUuid: string -> Option<Uuid>, now: Timestamp)

  /** One multipart field: its name, its file name and its bytes. */
  datatype Field = Field(name: Option<string>, fileName: Option<string>, data: seq<Byte>)

  datatype CreateFolderRequest = CreateFolderRequest(path: string, name: string)

  datatype SyncRequest = SyncRequest(folders: seq<string>, lastSync: Option<Timestamp>)

  /** The stored tree and file records after a handler, and its reply. */
  datatype Effect<T> = Effect(tree: Tree, files: seq<FileRow>, reply: Reply<T>)

  // ---------------------------------------------------------------------------
  // Request parameters

  /** The `path` query parameter, `/` when absent. */
  function RequestPath(params: Params): (r: string)
    ensures "path" !in params ==> r == "/"
    ensures "path" in params ==> r == params["path"]
  {
    if "path" in params then params["path"] else "/"
  }

  /** The `overwrite` query parameter, false when absent or not a `bool`. */
  function Overwrite(params: Params): (r: bool)
  {
    "overwrite" in params && ParseBool(params["overwrite"]) == Some(true)
  }

  /** Overwriting is allowed exactly when the parameter is spelled `true`. */
  lemma OverwriteOnlyWhenTrue(params: Params)
    ensures Overwrite(params) <==> "overwrite" in params && params["overwrite"] == "true"
  {
  }

  /** The `expires_in_hours` query parameter, 24 when absent or not an `i64`. */
  function ExpiresInHours(params: Params): (r: i64)
  {
    if "expires_in_hours" in params && ParseI64(params["expires_in_hours"]).Some?
    then ParseI64(params["expires_in_hours"]).value
    else 24
  }

  /** Any `i64` written in decimal sets the lifetime; anything that does not parse leaves it at 24 hours. */
  lemma ExpiresInHoursDefault(params: Params, hours: i64)
    ensures "expires_in_hours" !in params ==> ExpiresInHours(params) == 24
    ensures "expires_in_hours" in params && ParseI64(params["expires_in_hours"]).None? ==> ExpiresInHours(params) == 24
    ensures "expires_in_hours" in params && params["expires_in_hours"] == ShowInt(hours) ==> ExpiresInHours(params) == hours
  {
    ParseShowI64(hours);
  }

  /** The `max_downloads` query parameter, no limit when absent or not a `u32`. */
  function MaxDownloads(params: Params): (r: Option<u32>)
  {
    if "max_downloads" in params then ParseU32(params["max_downloads"]) else None
  }

  lemma MaxDownloadsParsed(params: Params, n: u32)
    ensures "max_downloads" !in params ==> MaxDownloads(params) == None
    ensures "max_downloads" in params && params["max_downloads"] == ShowNat(n) ==> MaxDownloads(params) == Some(n)
  {
    ParseShowU32(n);
  }

  /** `format!` of a directory and a name: a separator is inserted unless the directory ends with one. */
  function JoinTarget(dir: string, name: string): (r: string)
  {
    if |dir| > 0 && dir[|dir| - 1] == '/' then dir + name else dir + "/" + name
  }

  /** The target lies in the directory under the name: its components are the directory's, then the name's. */
  lemma JoinTargetComponents(dir: string, name: string)
    ensures Components(JoinTarget(dir, name)) == Components(dir) + Components(name)
  {
    if |dir| > 0 && dir[|dir| - 1] == '/' {
      var d := dir[..|dir| - 1];
      assert dir == d + "/" + "";
      assert dir + name == d + "/" + name;
      ComponentsConcat(d, "");
      ComponentsConcat(d, name);
      assert Split("") == [""];
    } else {
      ComponentsConcat(dir, name);
    }
  }

  /** A plain file name becomes the last component of the target, which is what the stored record is named after. */
  lemma JoinTargetName(st: Settings, dir: string, name: string)
    requires IsPart(name)
    ensures var p := AbsolutePath(st.basePath, JoinTarget(dir, name));
      |p.parts| > 0 && p.parts[|p.parts| - 1] == name && !p.trailing
  {
    JoinTargetComponents(dir, name);
    SplitNoSeparator(name);
    JoinTargetEnd(dir, name);
  }

  /** The target ends as the name does: in a separator exactly when the name is empty or `.`. */
  lemma JoinTargetEnd(dir: string, name: string)
    requires '/' !in name
    ensures DirSyntax(JoinTarget(dir, name)) <==> !IsPart(name)
  {
    if |dir| > 0 && dir[|dir| - 1] == '/' {
      var d := dir[..|dir| - 1];
      assert dir == d + "/";
      assert dir + name == d + "/" + name;
      DirSyntaxAfterSeparator(d, name);
    } else {
      DirSyntaxAfterSeparator(dir, name);
    }
  }

  /** `field.file_name()`, `unnamed` when the field carries none. */
  function FileNameOf(field: Field): (r: string)
  {
    match field.fileName
    case None => "unnamed"
    case Some(n) => n
  }

  /** The cursor of a sync: the client's last sync, or a day before now. */
  function SyncCursor(lastSync: Option<Timestamp>, now: Timestamp): (r: Timestamp)
    ensures lastSync.Some? ==> r == lastSync.value
    ensures lastSync.None? ==> r == now - 24 * SECONDS_PER_HOUR
  {
    match lastSync
    case None => now - 24 * SECONDS_PER_HOUR
    case Some(t) => t
  }

  // ---------------------------------------------------------------------------
  // upload_file

  /** `upload_file` (server/handlers.rs:58-112), on the stored tree and the file records. */
  function Upload(st: Settings, t: Tree, files: seq<FileRow>, ctx: Context, claims: Claims,
                  params: Params, fields: seq<Field>, stamp: Fresh): (r: Effect<UploadResponse>)
  {
    if fields == [] then Effect(t, files, Ok(Error("No file uploaded", ctx.now)))
    else
      var field := fields[0];
      var target := JoinTarget(RequestPath(params), FileNameOf(field));
      if !Overwrite(params) && Metadata(st, t, target, stamp).Ok? then
        Effect(t, files, Ok(Error("File already exists", ctx.now)))
      else
        var saved := Save(st, t, target, field.data, stamp);
        match saved.result
        case Err(_) => Effect(saved.tree, files, Err(INTERNAL_SERVER_ERROR))
        case Ok(m) =>
          match ctx.parseUuid(claims.sub)
          case None => Effect(saved.tree, files, Err(INTERNAL_SERVER_ERROR))
          case Some(userId) =>
            var owned := m.(ownerId := userId);
            Effect(saved.tree, files + [ToFileRow(owned)],
                   Ok(Success(UploadResponse(owned.id, owned.path, owned.size, owned.checksum), ctx.now)))
  }

  /** Only the first field is looked at; with none the upload is refused and nothing changes. */
  lemma UploadFirstFieldOnly(st: Settings, t: Tree, files: seq<FileRow>, ctx: Context, claims: Claims,
                             params: Params, fields: seq<Field>, stamp: Fresh)
    ensures fields == [] ==> Upload(st, t, files, ctx, claims, params, fields, stamp) == Effect(t, files, Ok(Error("No file uploaded", ctx.now)))
    ensures fields != [] ==> Upload(st, t, files, ctx, claims, params, fields, stamp) == Upload(st, t, files, ctx, claims, params, fields[..1], stamp)
  {
  }

  /** Without `overwrite=true` an existing target is refused, and neither the tree nor the records change. */
  lemma UploadRefusesExisting(st: Settings, t: Tree, files: seq<FileRow>, ctx: Context, claims: Claims,
                              params: Params, fields: seq<Field>, stamp: Fresh)
    requires fields != [] && !Overwrite(params)
    requires var target := JoinTarget(RequestPath(params), FileNameOf(fields[0]));
      var k := Resolve(st.env.cwd, AbsolutePath(st.basePath, target));
      k in t && (DirSyntax(target) ==> IsDir(t, k))
    ensures Upload(st, t, files, ctx, claims, params, fields, stamp) == Effect(t, files, Ok(Error("File already exists", ctx.now)))
  {
  }

  /**
   * A successful upload stores the data where the path and file name say, records
   * the caller as owner, and answers with that record's id, path, size and checksum;
   * the record is then found under its id.
   */
  lemma UploadStores(st: Settings, t: Tree, files: seq<FileRow>, ctx: Context, claims: Claims,
                     params: Params, fields: seq<Field>, stamp: Fresh)
    requires Upload(st, t, files, ctx, claims, params, fields, stamp).reply.Ok?
    requires Upload(st, t, files, ctx, claims, params, fields, stamp).reply.value.success
    requires forall i | 0 <= i < |files| :: files[i].id != stamp.id
    ensures fields != [] && ctx.parseUuid(claims.sub).Some?
    ensures var e := Upload(st, t, files, ctx, claims, params, fields, stamp);
      var target := JoinTarget(RequestPath(params), FileNameOf(fields[0]));
      var data := fields[0].data;
      var m := FileById(e.files, stamp.id);
      && Read(st, e.tree, target) == Ok(data)
      && |e.files| == |files| + 1 && e.files[..|files|] == files
      && m.Some?
      && m.value.ownerId == ctx.parseUuid(claims.sub).value
      && m.value.size == |data| && !m.value.isDirectory
      && m.value.checksum == Checksum(st.env, data)
      && e.reply.value.data == Some(UploadResponse(stamp.id, m.value.path, m.value.size, m.value.checksum))
  {
    UploadSteps(st, t, files, ctx, claims, params, fields, stamp);
    var target := JoinTarget(RequestPath(params), FileNameOf(fields[0]));
    var data := fields[0].data;
    var saved := Save(st, t, target, data, stamp);
    SaveThenRead(st, t, target, data, stamp);
    var owned := saved.result.value.(ownerId := ctx.parseUuid(claims.sub).value);
    FileCreatedThenFound(files, owned);
    assert (files + [ToFileRow(owned)])[..|files|] == files;
  }

  /** A successful upload is the save of the first field followed by the record of its owner. */
  lemma UploadSteps(st: Settings, t: Tree, files: seq<FileRow>, ctx: Context, claims: Claims,
                    params: Params, fields: seq<Field>, stamp: Fresh)
    requires Upload(st, t, files, ctx, claims, params, fields, stamp).reply.Ok?
    requires Upload(st, t, files, ctx, claims, params, fields, stamp).reply.value.success
    ensures fields != [] && ctx.parseUuid(claims.sub).Some?
    ensures var saved := Save(st, t, JoinTarget(RequestPath(params), FileNameOf(fields[0])), fields[0].data, stamp);
      && saved.result.Ok?
      && var owned := saved.result.value.(ownerId := ctx.parseUuid(claims.sub).value);
      Upload(st, t, files, ctx, claims, params, fields, stamp) ==
        Effect(saved.tree, files + [ToFileRow(owned)],
               Ok(Success(UploadResponse(owned.id, owned.path, owned.size, owned.checksum), ctx.now)))
  {
  }

  // ---------------------------------------------------------------------------
  // create_folder

  /** `create_folder` (server/handlers.rs:177-202). */
  function Folder(st: Settings, t: Tree, files: seq<FileRow>, ctx: Context, claims: Claims,
                  request: CreateFolderRequest, stamp: Fresh): (r: Effect<FileMetadata>)
  {
    match ctx.parseUuid(claims.sub)
    case None => Effect(t, files, Err(INTERNAL_SERVER_ERROR))
    case Some(userId) =>
      var made := MakeDirectory(st, t, JoinTarget(request.path, request.name), stamp);
      match made.result
      case Err(_) => Effect(made.tree, files, Err(INTERNAL_SERVER_ERROR))
      case Ok(m) =>
        var owned := m.(ownerId := userId);
        Effect(made.tree, files + [ToFileRow(owned)], Ok(Success(owned, ctx.now)))
  }

  /** An unreadable caller id fails the request before anything is created. */
  lemma FolderNeedsCaller(st: Settings, t: Tree, files: seq<FileRow>, ctx: Context, claims: Claims,
                          request: CreateFolderRequest, stamp: Fresh)
    requires ctx.parseUuid(claims.sub).None?
    ensures Folder(st, t, files, ctx, claims, request, stamp) == Effect(t, files, Err(INTERNAL_SERVER_ERROR))
  {
  }

  /**
   * A new folder exists, with its missing ancestors, under the requested path
   * and name; its record, owned by the caller, is stored and returned.
   */
  lemma FolderCreates(st: Settings, t: Tree, files: seq<FileRow>, ctx: Context, claims: Claims,
                      request: CreateFolderRequest, stamp: Fresh)
    requires Folder(st, t, files, ctx, claims, request, stamp).reply.Ok?
    requires forall i | 0 <= i < |files| :: files[i].id != stamp.id
    ensures ctx.parseUuid(claims.sub).Some?
    ensures var e := Folder(st, t, files, ctx, claims, request, stamp);
      var k := Resolve(st.env.cwd, AbsolutePath(st.basePath, JoinTarget(request.path, request.name)));
      var m := e.reply.value.data.value;
      && (forall i | 0 <= i <= |k| :: IsDir(e.tree, k[..i]))
      && e.reply.value.success
      && m.ownerId == ctx.parseUuid(claims.sub).value
      && m.isDirectory && m.size == 0 && m.checksum == ""
      && e.files == files + [ToFileRow(m)]
      && FileById(e.files, stamp.id) == Some(m)
  {
    var target := JoinTarget(request.path, request.name);
    MakeDirectoryCreates(st, t, target, stamp);
    MakeDirectoryRecord(st, t, target, stamp);
    var made := MakeDirectory(st, t, target, stamp);
    var owned := made.result.value.(ownerId := ctx.parseUuid(claims.sub).value);
    FileCreatedThenFound(files, owned);
  }

  // ---------------------------------------------------------------------------
  // create_share_link

  datatype ShareEffect = ShareEffect(links: seq<ShareRow>, reply: Reply<ShareLink>)

  /** `create_share_link` (server/handlers.rs:251-296); `linkId` and `token` are the fresh UUIDs it draws. */
  function GrantShareLink(files: seq<FileRow>, links: seq<ShareRow>, ctx: Context, claims: Claims,
                          fileIdText: string, params: Params, linkId: Uuid, token: string): (r: ShareEffect)
  {
    match ctx.parseUuid(claims.sub)
    case None => ShareEffect(links, Err(INTERNAL_SERVER_ERROR))
    case Some(userId) =>
      match ctx.parseUuid(fileIdText)
      case None => ShareEffect(links, Err(BAD_REQUEST))
      case Some(fileId) =>
        match FileById(files, fileId)
        case None => ShareEffect(links, Ok(Error("File not found", ctx.now)))
        case Some(m) =>
          if m.ownerId != userId then ShareEffect(links, Ok(Error("Access denied", ctx.now)))
          else
            var link := ShareLink(
              id := linkId,
              fileId := fileId,
              createdBy := userId,
              shareToken := token,
              expiresAt := Some(ctx.now + ExpiresInHours(params) * SECONDS_PER_HOUR),
              passwordProtected := false,
              downloadCount := 0,
              maxDownloads := MaxDownloads(params),
              createdAt := ctx.now);
            ShareEffect(links + [ToShareRow(link)], Ok(Success(link, ctx.now)))
  }

  /**
   * A link is granted exactly to the owner of an existing file; a missing file
   * and a foreign file are refused without storing anything.
   */
  lemma ShareLinkOwnership(files: seq<FileRow>, links: seq<ShareRow>, ctx: Context, claims: Claims,
                           fileIdText: string, params: Params, linkId: Uuid, token: string)
    requires ctx.parseUuid(claims.sub).Some? && ctx.parseUuid(fileIdText).Some?
    ensures var e := GrantShareLink(files, links, ctx, claims, fileIdText, params, linkId, token);
      var found := FileById(files, ctx.parseUuid(fileIdText).value);
      && (found.None? ==> e == ShareEffect(links, Ok(Error("File not found", ctx.now))))
      && (found.Some? && found.value.ownerId != ctx.parseUuid(claims.sub).value ==>
            e == ShareEffect(links, Ok(Error("Access denied", ctx.now))))
      && (e.reply.Ok? && e.reply.value.success <==> found.Some? && found.value.ownerId == ctx.parseUuid(claims.sub).value)
  {
  }

  /**
   * A granted link is made by the caller for that file, starts with no
   * downloads and no password, expires after the requested hours (24 by
   * default), and is then found by its token.
   */
  lemma ShareLinkGranted(files: seq<FileRow>, links: seq<ShareRow>, ctx: Context, claims: Claims,
                         fileIdText: string, params: Params, linkId: Uuid, token: string)
    requires GrantShareLink(files, links, ctx, claims, fileIdText, params, linkId, token).reply.Ok?
    requires GrantShareLink(files, links, ctx, claims, fileIdText, params, linkId, token).reply.value.success
    requires forall i | 0 <= i < |links| :: links[i].shareToken != token
    ensures ctx.parseUuid(claims.sub).Some? && ctx.parseUuid(fileIdText).Some?
    ensures var e := GrantShareLink(files, links, ctx, claims, fileIdText, params, linkId, token);
      var link := e.reply.value.data.value;
      && link.createdBy == ctx.parseUuid(claims.sub).value
      && link.fileId == ctx.parseUuid(fileIdText).value
      && FileById(files, link.fileId).Some? && FileById(files, link.fileId).value.ownerId == link.createdBy
      && link.downloadCount == 0 && !link.passwordProtected
      && link.expiresAt == Some(ctx.now + ExpiresInHours(params) * SECONDS_PER_HOUR)
      && link.maxDownloads == MaxDownloads(params)
      && e.links == links + [ToShareRow(link)]
      && LinkByToken(e.links, token) == Some(link)
  {
    var e := GrantShareLink(files, links, ctx, claims, fileIdText, params, linkId, token);
    LinkCreatedThenFound(links, e.reply.value.data.value);
  }

  // ---------------------------------------------------------------------------
  // list_files

  /** The per-entry identities of a listing, with the caller as every entry's owner. */
  function Reowned(stamps: Key -> Fresh, userId: Uuid): (r: Key -> Fresh)
    ensures forall k :: r(k) == stamps(k).(ownerId := userId)
  {
    k => stamps(k).(ownerId := userId)
  }

  /** Describing with another owner changes the owner and nothing else. */
  lemma DescribeReowned(st: Settings, t: Tree, p: PathBuf, stamp: Fresh, userId: Uuid)
    ensures var d := Describe(st, t, p, stamp);
      var e := Describe(st, t, p, stamp.(ownerId := userId));
      && (d.Err? <==> e.Err?)
      && (d.Err? ==> e == d)
      && (d.Ok? ==> e == Ok(d.value.(ownerId := userId)))
  {
  }

  /**
   * Overwriting every owner of a listing gives the listing the engine would
   * have produced had every entry been stamped with the caller's id: same
   * entries, same order, same count.
   */
  lemma ReownedListing(st: Settings, t: Tree, dir: PathBuf, stamps: Key -> Fresh, userId: Uuid,
                       list: seq<FileMetadata>, owned: seq<FileMetadata>)
    requires IsListing(list, Entries(st, t, dir, stamps))
    requires |owned| == |list| && forall i | 0 <= i < |list| :: owned[i] == list[i].(ownerId := userId)
    ensures IsListing(owned, Entries(st, t, dir, Reowned(stamps, userId)))
  {
    var k := Resolve(st.env.cwd, dir);
    var before := Entries(st, t, dir, stamps);
    var after := Entries(st, t, dir, Reowned(stamps, userId));
    forall c | c in Children(t, k)
      ensures var d := Describe(st, t, ChildPath(dir, c[|k|]), stamps(c));
        d in before && d.Ok? && Describe(st, t, ChildPath(dir, c[|k|]), Reowned(stamps, userId)(c)) == Ok(d.value.(ownerId := userId))
    {
      DescribeReowned(st, t, ChildPath(dir, c[|k|]), stamps(c), userId);
    }
    forall m
      ensures m in owned <==> Ok(m) in after
    {
      if m in owned {
        var i :| 0 <= i < |owned| && owned[i] == m;
        assert list[i] in list;
        var c :| c in Children(t, k) && Describe(st, t, ChildPath(dir, c[|k|]), stamps(c)) == Ok(list[i]);
        assert Describe(st, t, ChildPath(dir, c[|k|]), Reowned(stamps, userId)(c)) == Ok(m);
      }
      if Ok(m) in after {
        var c :| c in Children(t, k) && Describe(st, t, ChildPath(dir, c[|k|]), Reowned(stamps, userId)(c)) == Ok(m);
        var d := Describe(st, t, ChildPath(dir, c[|k|]), stamps(c));
        assert d.value in list;
        var i :| 0 <= i < |list| && list[i] == d.value;
        assert owned[i] == m;
      }
    }
    forall i, j | 0 <= i < j < |owned|
      ensures LexLt(ListKey(owned[i]), ListKey(owned[j]))
    {
      assert ListKey(owned[i]) == ListKey(list[i]) && ListKey(owned[j]) == ListKey(list[j]);
    }
  }

  // ---------------------------------------------------------------------------
  // The handlers

  /** `upload_file`: the first multipart field is saved and recorded. */
  method UploadFile(fs: FileSystemService, db: Database, ctx: Context, claims: Claims,
                    params: Params, fields: seq<Field>, stamp: Fresh) returns (r: Reply<UploadResponse>)
    requires fs.Valid()
    modifies fs, db
    ensures fs.Valid()
    ensures Effect(fs.tree, db.files, r) == Upload(fs.settings, old(fs.tree), old(db.files), ctx, claims, params, fields, stamp)
    ensures db.users == old(db.users) && db.sessions == old(db.sessions) && db.links == old(db.links)
  {
    var path := RequestPath(params);
    var overwrite := Overwrite(params);
    // The field loop returns on its first pass, so at most the first field is processed.
    if fields == [] {
      return Ok(Error("No file uploaded", ctx.now));
    }
    var field := fields[0];
    var filePath := JoinTarget(path, FileNameOf(field));
    if !overwrite {
      var existing := fs.GetFileMetadata(filePath, stamp);
      if existing.Ok? {
        return Ok(Error("File already exists", ctx.now));
      }
    }
    var saved := fs.SaveFile(filePath, field.data, stamp);
    if saved.Err? {
      return Err(INTERNAL_SERVER_ERROR);
    }
    var userId := ctx.parseUuid(claims.sub);
    if userId.None? {
      return Err(INTERNAL_SERVER_ERROR);
    }
    var metadata := saved.value;
    metadata := metadata.(ownerId := userId.value);
    db.CreateFileMetadata(metadata);
    r := Ok(Success(UploadResponse(metadata.id, metadata.path, metadata.size, metadata.checksum), ctx.now));
  }

  /** `list_files`: the directory's listing, every entry reported as the caller's. */
  method ListFiles(fs: FileSystemService, ctx: Context, claims: Claims, params: Params, stamps: Key -> Fresh)
    returns (r: Reply<seq<FileMetadata>>)
    requires fs.Valid()
    ensures ctx.parseUuid(claims.sub).None? ==> r == Err(INTERNAL_SERVER_ERROR)
    ensures ctx.parseUuid(claims.sub).Some? ==>
      var dir := AbsolutePath(fs.settings.basePath, RequestPath(params));
      && (!IsDir(fs.tree, Resolve(fs.settings.env.cwd, dir)) <==> r == Err(NOT_FOUND))
      && (r.Ok? ==>
            && r.value.success && r.value.data.Some?
            && IsListing(r.value.data.value, Entries(fs.settings, fs.tree, dir, Reowned(stamps, ctx.parseUuid(claims.sub).value))))
  {
    var path := RequestPath(params);
    var userId := ctx.parseUuid(claims.sub);
    if userId.None? {
      return Err(INTERNAL_SERVER_ERROR);
    }
    var files := fs.ListDirectory(path, stamps);
    if files.Err? {
      return Err(NOT_FOUND);
    }
    var list := files.value;
    var owned: seq<FileMetadata> := [];
    for i := 0 to |list|
      invariant |owned| == i
      invariant forall j | 0 <= j < i :: owned[j] == list[j].(ownerId := userId.value)
    {
      var file := list[i];
      file := file.(ownerId := userId.value);
      owned := owned + [file];
    }
    ReownedListing(fs.settings, fs.tree, AbsolutePath(fs.settings.basePath, path), stamps, userId.value, list, owned);
    r := Ok(Success(owned, ctx.now));
  }

  /** `create_folder`: the directory is created and its record stored. */
  method CreateFolder(fs: FileSystemService, db: Database, ctx: Context, claims: Claims,
                      request: CreateFolderRequest, stamp: Fresh) returns (r: Reply<FileMetadata>)
    requires fs.Valid()
    modifies fs, db
    ensures fs.Valid()
    ensures Effect(fs.tree, db.files, r) == Folder(fs.settings, old(fs.tree), old(db.files), ctx, claims, request, stamp)
    ensures db.users == old(db.users) && db.sessions == old(db.sessions) && db.links == old(db.links)
  {
    var userId := ctx.parseUuid(claims.sub);
    if userId.None? {
      return Err(INTERNAL_SERVER_ERROR);
    }
    var folderPath := JoinTarget(request.path, request.name);
    var made := fs.CreateDirectory(folderPath, stamp);
    if made.Err? {
      return Err(INTERNAL_SERVER_ERROR);
    }
    var metadata := made.value;
    metadata := metadata.(ownerId := userId.value);
    db.CreateFileMetadata(metadata);
    r := Ok(Success(metadata, ctx.now));
  }

  /** `sync_files`: the store's change feed from the cursor on; `syncToken` is the fresh UUID it draws. */
  method SyncFiles(db: Database, ctx: Context, claims: Claims, request: SyncRequest, syncToken: string)
    returns (r: Reply<SyncResponse>)
    ensures ctx.parseUuid(claims.sub).None? ==> r == Err(INTERNAL_SERVER_ERROR)
    ensures ctx.parseUuid(claims.sub).Some? ==>
      var rows := ChangedRows(db.files, ctx.parseUuid(claims.sub).value, SyncCursor(request.lastSync, ctx.now));
      && r.Ok? && r.value.success && r.value.data.Some?
      && r.value.data.value.syncToken == syncToken
      && |r.value.data.value.changes| == |rows|
      && forall i | 0 <= i < |rows| :: r.value.data.value.changes[i] == ChangeOf(rows[i])
  {
    var userId := ctx.parseUuid(claims.sub);
    if userId.None? {
      return Err(INTERNAL_SERVER_ERROR);
    }
    var since := SyncCursor(request.lastSync, ctx.now);
    var changes := db.GetFilesChangedSince(userId.value, since);
    r := Ok(Success(SyncResponse(changes, syncToken), ctx.now));
  }

  /** `create_share_link`: ownership is checked against the stored record before a link is stored. */
  method CreateShareLink(db: Database, ctx: Context, claims: Claims, fileIdText: string, params: Params,
                         linkId: Uuid, token: string) returns (r: Reply<ShareLink>)
    modifies db
    ensures ShareEffect(db.links, r) == GrantShareLink(old(db.files), old(db.links), ctx, claims, fileIdText, params, linkId, token)
    ensures db.users == old(db.users) && db.files == old(db.files) && db.sessions == old(db.sessions)
  {
    var userId := ctx.parseUuid(claims.sub);
    if userId.None? {
      return Err(INTERNAL_SERVER_ERROR);
    }
    var fileId := ctx.parseUuid(fileIdText);
    if fileId.None? {
      return Err(BAD_REQUEST);
    }
    var fileMetadata := db.GetFileMetadata(fileId.value);
    if fileMetadata.None? {
      return Ok(Error("File not found", ctx.now));
    }
    if fileMetadata.value.ownerId != userId.value {
      return Ok(Error("Access denied", ctx.now));
    }
    var shareLink := ShareLink(
      id := linkId,
      fileId := fileId.value,
      createdBy := userId.value,
      shareToken := token,
      expiresAt := Some(ctx.now + ExpiresInHours(params) * SECONDS_PER_HOUR),
      passwordProtected := false,
      downloadCount := 0,
      maxDownloads := MaxDownloads(params),
      createdAt := ctx.now);
    db.CreateShareLink(shareLink);
    r := Ok(Success(shareLink, ctx.now));
  }
}
