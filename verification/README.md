# synker server core, modelled in Dafny

synker is a self-hosted file synchronisation server. This project models its
core and proves properties of that model. The core is:

- the storage engine, which maps client paths into a base directory and saves,
  reads, deletes, moves, copies, lists and measures files there;
- the metadata store, with its tables of users, file records, sync sessions and
  share links;
- the HTTP handlers that join the two: upload, list, create folder, sync and
  share link;
- the MyCloud permission mapping;
- the configuration defaults and their validation;
- the server's start-up steps, which set the file-size limit and create the
  first administrator.

The modules follow the server's files:

| module | file | form |
|---|---|---|
| `Wrappers`, `Types` | `server/types.rs` | records (`FileMetadata`, `User`, `SyncSession`, `ShareLink`, `FileChange`) and the `ApiResponse` envelope |
| `Paths` | `server/filesystem.rs` | the path algebra of `Path`/`PathBuf`: components, `join`, `strip_prefix`, `file_name`, `parent`, `extension`, and resolution against the working directory |
| `Disk` | `server/filesystem.rs` | the namespace the engine works on, a map from resolved locations to files and directories, with `create_dir_all`, `write`, `remove_file`, `remove_dir_all`, `rename` and `copy` as functions on it |
| `FileSystem` | `server/filesystem.rs` | each operation as a function on the tree, plus the class `FileSystemService`, whose methods update its `tree` field and are proved equal to those functions; the checksum loop and the directory walk are `while` loops |
| `Ordering` | (shared) | lexicographic keys, a sort by key (`sort_by`, `ORDER BY`) and `Vec::dedup` |
| `Database` | `server/database.rs` | the class `Database`, with one `seq` field per table; each query is a function over the rows, and the row-to-record loops are methods |
| `Parsing` | `server/handlers.rs` | `str::parse` for `bool`, `i64` and `u32` |
| `Handlers` | `server/handlers.rs` | each handler as a function on the tree and the tables, plus a method on the service objects proved equal to it |
| `MyCloud` | `server/mycloud.rs` | the class `MyCloudIntegration` (session token); `MapMyCloudPermissions` is the `for` loop followed by sort and dedup |
| `Config` | `server/config.rs` | the settings records, `Default` and `Validate` |
| `Server` | `server/synker_server.rs` | the MB-to-bytes limit, and `CreateInitialAdmin` as a guarded insert into the user table |

Values the server draws from outside become parameters:

- `Uuid::new_v4()` and the clock, passed as `Fresh` stamps or as an `id` and a `now`;
- SHA-256 and the MIME table, as functions in `FileSystem.Env`;
- `Uuid::parse_str`, as `Handlers.Context.parseUuid`;
- `hash_password`'s result, and a failure of the administrator lookup.

Fixed widths are modelled explicitly:

- the `u64` size is stored as an `i64` column and read back;
- the `u32` download counts are stored as `i32` columns;
- `u64` sums and products wrap.

## Model

| member | source | states |
|---|---|---|
| Types.Success | server/types.rs:74-81 | the success envelope carries the payload and no error, and is well formed |
| Types.Error | server/types.rs:83-90 | the error envelope carries the message and no payload, and is well formed |
| Paths.Split | server/filesystem.rs:37-40 | splitting at `/` yields at least one piece and no piece holds a separator |
| Paths.JoinSplit | server/filesystem.rs:42-45 | re-joining the pieces with `/` restores the string |
| Paths.SplitConcat | server/handlers.rs:75-79 | the pieces of `a/b` are the pieces of `a` followed by those of `b` |
| Paths.KeepParts | server/filesystem.rs:37-40 | a piece is kept as a component exactly when it is non-empty, not `.` and holds no separator |
| Paths.KeepPartsConcat | server/filesystem.rs:37-40 | keeping components distributes over concatenation |
| Paths.ComponentsConcat | server/handlers.rs:75-79 | the components of `a/b` are those of `a` then those of `b` |
| Paths.TrimLeadingSlashes | server/filesystem.rs:38 | the result is a suffix with no leading `/`, and every character removed is a `/` |
| Paths.ComponentsTrim | server/filesystem.rs:38-39 | trimming the leading separators does not change the components |
| Paths.DirSyntaxTrim | server/filesystem.rs:38-39 | trimming the leading separators does not change whether the path ends in a separator |
| Paths.DirSyntaxAfterSeparator | server/handlers.rs:75-79 | after a last separator, the string ends in a component exactly when the name is one |
| Paths.AbsolutePath | server/filesystem.rs:37-40 | the path is the base's components followed by the relative path's, rooted like the base, and ends in a separator exactly when the relative path does |
| Paths.RelativePath | server/filesystem.rs:42-45 | succeeds exactly when the base is a component prefix; the result is `/` and the rest joined by `/`; otherwise `InvalidPath` |
| Paths.RelativeOfAbsolute | server/filesystem.rs:37-45 | mapping a canonical relative path into the store and back gives it with exactly one leading `/` |
| Paths.FileName | server/filesystem.rs:162-166 | the last component, unless there is none or it is `..` |
| Paths.Parent | server/filesystem.rs:55-57 | a parent exists exactly when there is a component, and is the path without its last one and without a trailing separator |
| Paths.Extension | server/filesystem.rs:171-175 | the text after the last dot that is not the first character; none for `..`, dot-files and names without a dot |
| Paths.Resolve | server/filesystem.rs:37-40 | resolving a well-formed path against the working directory gives a location free of `..` |
| Paths.ContainedWithoutDotDot | server/filesystem.rs:37-40 | without a `..` piece the target resolves to the base's location followed by the components |
| Paths.EscapeWithDotDot | server/filesystem.rs:37-40 | `../n` resolves to a sibling of the base, outside it: the engine does not confine paths |
| Disk.Children | server/filesystem.rs:128-133 | the entries one level below a directory |
| Disk.CreateDirAll | server/filesystem.rs:55-57 | fails exactly when some prefix is a file; otherwise every prefix is a directory, nothing existing changes, and only prefixes are added |
| Disk.CreateDirAllValid | server/filesystem.rs:55-57 | `create_dir_all` keeps every entry inside a directory |
| Disk.WriteFile | server/filesystem.rs:60 | `write` succeeds exactly when the parent is a directory and the target is not, and then sets the target's bytes |
| Disk.WriteFileValid | server/filesystem.rs:60 | `write` keeps the tree well formed |
| Disk.RemoveFile | server/filesystem.rs:88 | `remove_file` removes that entry and keeps every other one |
| Disk.RemoveFileValid | server/filesystem.rs:88 | removing a file keeps the tree well formed |
| Disk.Without | server/filesystem.rs:86 | the tree without the subtree under a location |
| Disk.RemoveAll | server/filesystem.rs:86 | `remove_dir_all` removes the subtree; on the root it empties it and fails |
| Disk.WithoutValid | server/filesystem.rs:86 | removing a subtree keeps the tree well formed |
| Disk.Rename | server/filesystem.rs:116 | `rename` fails on a missing source, and renaming an entry onto itself changes nothing |
| Disk.RenameOntoAncestorFails | server/filesystem.rs:116 | an entry cannot be renamed onto one of its ancestors |
| Disk.RenameMoves | server/filesystem.rs:116 | after a rename the source is gone, its whole subtree sits under the target, and unrelated entries are unchanged |
| Disk.MoveSubtreeValid | server/filesystem.rs:116 | a rename keeps the tree well formed |
| Disk.Copy | server/filesystem.rs:279 | `copy` succeeds exactly for a file source and a target whose parent is a directory; copying a file onto itself truncates it |
| Disk.SubtreeOfFile | server/filesystem.rs:247-264 | the bytes under a file are its length |
| Disk.SubtreeOfEmptyDir | server/filesystem.rs:247-264 | an empty directory holds no bytes |
| FileSystem.HexLower | server/filesystem.rs:227 | two lower-case hex digits per digest byte, high nibble first |
| FileSystem.HexLowerInjective | server/filesystem.rs:227 | different digests give different checksums |
| FileSystem.Checksum | server/filesystem.rs:214-228 | the checksum is twice as long as the digest |
| FileSystem.NameOf | server/filesystem.rs:162-166 | the file name, or the empty string when there is none |
| FileSystem.MimeType | server/filesystem.rs:171-175 | `application/octet-stream` when there is no extension |
| FileSystem.Describe | server/filesystem.rs:158-212 | a missing entry is `NotFound`, one outside the base `InvalidPath`; otherwise the record's kind, size, name, path, parent and permissions follow from the entry |
| FileSystem.DescribeDirectory | server/filesystem.rs:168-181 | a directory's record has size 0, MIME type `inode/directory` and an empty checksum |
| FileSystem.DescribeFile | server/filesystem.rs:168-181 | a file's record has its length, the checksum of its bytes and the MIME type of its name |
| FileSystem.DescribeUnderBase | server/filesystem.rs:158-160 | any path built from the base describes successfully exactly when an entry exists there, and it is a directory if the path ends in a separator |
| FileSystem.CreateParent | server/filesystem.rs:54-57 | the parent's directories are created, or nothing happens when there is no parent |
| FileSystem.CreateParentValid | server/filesystem.rs:54-57 | creating the parent keeps the tree well formed and every existing entry |
| FileSystem.Read | server/filesystem.rs:67-76 | `NotFound` exactly when nothing exists or a file is named with a trailing separator, an I/O failure exactly for a directory, and the bytes exactly for a file named without one |
| FileSystem.Metadata | server/filesystem.rs:147-156 | `NotFound` exactly when nothing exists at the path or a file is named with a trailing separator; no other error |
| FileSystem.ListKey | server/filesystem.rs:135-142 | directories sort before files, then by name |
| FileSystem.ListingUnique | server/filesystem.rs:120-145 | a directory has exactly one listing |
| FileSystem.ListingOrder | server/filesystem.rs:135-142 | in a listing, directories come first, and names strictly ascend within each kind |
| FileSystem.ChildDescribed | server/filesystem.rs:128-131 | every child entry of a listed directory has a record named after it |
| FileSystem.SortedEntriesListing | server/filesystem.rs:127-144 | sorting the collected records gives the listing |
| FileSystem.SaveSizeLimit | server/filesystem.rs:48-50 | an upload is refused for size exactly when it exceeds the limit, and then nothing changes |
| FileSystem.SaveSteps | server/filesystem.rs:47-65 | a successful save was of a path ending in a component; it created the parent, wrote the bytes and described the new file |
| FileSystem.SaveThenRead | server/filesystem.rs:312-324 | after a save, reading the path gives the bytes, and the record has their size, checksum and the file name |
| FileSystem.SaveSucceeds | server/filesystem.rs:47-65 | a save within the limit succeeds when the path ends in a name (earlier `..` pieces allowed), nothing on the way to where it resolves is a file, and the target is not a directory |
| FileSystem.SaveToDotDotFails | server/filesystem.rs:47-65 | a save within the limit to a path whose last component is `..` fails with an I/O error |
| FileSystem.SaveThroughSeparatorFails | server/filesystem.rs:47-65 | a save within the limit to a path ending in a separator fails with an I/O error |
| FileSystem.SavePreservesValid | server/filesystem.rs:47-65 | a save keeps the tree well formed |
| FileSystem.DeleteRemoves | server/filesystem.rs:78-92 | deleting a missing path is `NotFound` and changes nothing; otherwise the whole subtree is removed, or just the file |
| FileSystem.SeparatorAfterFile | server/filesystem.rs:67-92 | a path ending in a separator at a regular file is not found by read, delete, metadata or size, and delete changes nothing |
| FileSystem.DeletePreservesValid | server/filesystem.rs:78-92 | deleting keeps the tree well formed |
| FileSystem.MakeDirectoryCreates | server/filesystem.rs:94-101 | the directory and all its ancestors exist afterwards, and the result is the description of the directory |
| FileSystem.MakeDirectoryRecord | server/filesystem.rs:94-101 | the record returned is a directory's: size 0, no checksum, MIME type `inode/directory` |
| FileSystem.MakeDirectoryPreservesValid | server/filesystem.rs:94-101 | creating a directory keeps the tree well formed |
| FileSystem.MoveMissingSource | server/filesystem.rs:107-109 | moving a missing source is `NotFound` and changes nothing |
| FileSystem.MoveRelocates | server/filesystem.rs:103-118 | after a move the source is gone, its subtree is under the target, and unrelated entries are unchanged |
| FileSystem.MoveFileThroughSeparatorFails | server/filesystem.rs:103-118 | a file cannot be moved to a path ending in a separator: the move fails with an I/O error |
| FileSystem.MovePreservesValid | server/filesystem.rs:103-118 | a move keeps the tree well formed |
| FileSystem.CopyMissingSource | server/filesystem.rs:270-272 | copying a missing source is `NotFound` and changes nothing |
| FileSystem.CopyDuplicates | server/filesystem.rs:266-283 | after a copy the target holds the source's bytes, the source is kept, and every other entry is unchanged |
| FileSystem.CopyThroughSeparatorFails | server/filesystem.rs:266-283 | a copy to a path ending in a separator fails |
| FileSystem.CopyPreservesValid | server/filesystem.rs:266-283 | a copy keeps the tree well formed |
| FileSystem.FileSystemService.New | server/filesystem.rs:23-35 | the base directory is created when nothing exists there, and the service keeps the base and the limit |
| FileSystem.FileSystemService.GetAbsolutePath | server/filesystem.rs:37-40 | the base's components followed by those of the relative path, ending in a separator exactly when it does |
| FileSystem.FileSystemService.GetRelativePath | server/filesystem.rs:42-45 | succeeds exactly for paths under the base |
| FileSystem.FileSystemService.CalculateChecksum | server/filesystem.rs:214-228 | the chunks read, each non-empty and at most 8192 bytes, make up the file, and the result is the checksum of its bytes |
| FileSystem.FileSystemService.GenerateFileMetadata | server/filesystem.rs:158-212 | the record `Describe` gives |
| FileSystem.FileSystemService.CreateParentDirectories | server/filesystem.rs:54-57 | the tree becomes the one `CreateParent` gives, or stays unchanged on failure |
| FileSystem.FileSystemService.SaveFile | server/filesystem.rs:47-65 | the new tree and the result are those of `Save`, and the tree stays well formed |
| FileSystem.FileSystemService.ReadFile | server/filesystem.rs:67-76 | the result of `Read` |
| FileSystem.FileSystemService.DeleteFile | server/filesystem.rs:78-92 | the new tree and the result are those of `Delete` |
| FileSystem.FileSystemService.CreateDirectory | server/filesystem.rs:94-101 | the new tree and the result are those of `MakeDirectory` |
| FileSystem.FileSystemService.MoveFile | server/filesystem.rs:103-118 | the new tree and the result are those of `Move` |
| FileSystem.FileSystemService.CopyFile | server/filesystem.rs:266-283 | the new tree and the result are those of `CopyTo` |
| FileSystem.FileSystemService.GetFileMetadata | server/filesystem.rs:147-156 | the result of `Metadata` |
| FileSystem.FileSystemService.ListDirectory | server/filesystem.rs:120-145 | fails, with `NotFound`, exactly when the path is not a directory; otherwise the result is the directory's sorted listing |
| FileSystem.FileSystemService.ReadDir | server/filesystem.rs:128-130 | each child is yielded exactly once |
| FileSystem.FileSystemService.GetDirectorySize | server/filesystem.rs:247-264 | the result of `DirectorySize` |
| FileSystem.FileSystemService.WalkSize | server/filesystem.rs:254-261 | the sum of the file sizes in the subtree, modulo 2^64 |
| Database.AsI64 | server/database.rs:90 | `as i64` on a `u64`: values from 2^63 on wrap to negatives |
| Database.AsU64 | server/database.rs:121 | `as u64` on an `i64`: negatives wrap to values from 2^63 on |
| Database.SizeRoundTrip | server/database.rs:80-134 | every `u64` size survives the `i64` column |
| Database.AsI32 | server/database.rs:241-242 | `as i32` on a `u32` wraps from 2^31 on |
| Database.AsU32 | server/database.rs:267-268 | `as u32` on an `i32` wraps negatives |
| Database.CountRoundTrip | server/database.rs:228-274 | every `u32` count survives the `i32` column |
| Database.FileRowRoundTrip | server/database.rs:80-134 | a file record stored and read back is unchanged |
| Database.ShareRowRoundTrip | server/database.rs:228-274 | a share link stored and read back is unchanged |
| Database.FindFirst | server/database.rs:42-66 | `fetch_optional`: none exactly when no row matches, else the first matching row |
| Database.Where | server/database.rs:136-141 | `WHERE`: only matching rows, each as often as in the table |
| Database.UserByUsername | server/database.rs:42-66 | a user is found exactly when one has that username, and it is one of them |
| Database.FileById | server/database.rs:106-134 | a record is found exactly when a row has that id, and it is such a row read back |
| Database.DirectoryRows | server/database.rs:136-141 | `parent_id = NULL` matches no row |
| Database.SessionFor | server/database.rs:188-212 | a session is found exactly when one belongs to that user and device |
| Database.LinkByToken | server/database.rs:251-274 | a link is found exactly when one has that token, and it is the first such row read back |
| Database.WithLastLogin | server/database.rs:68-78 | the `UPDATE` keeps the number of users |
| Database.WithSession | server/database.rs:214-226 | the `UPDATE` keeps the number of sessions |
| Database.DirectoryRowsQuery | server/database.rs:136-166 | the listing is sorted by name and holds exactly the user's rows under that parent, with multiplicity |
| Database.ChangedRowsQuery | server/database.rs:276-283 | the changes ascend by modification time and hold exactly the user's rows modified after the cursor |
| Database.NoChangesAfterLatest | server/database.rs:281 | a cursor at or after every modification yields no change |
| Database.UserCreatedThenFound | server/database.rs:21-66 | a user inserted under a new username is found by it |
| Database.FileCreatedThenFound | server/database.rs:80-134 | a record inserted under a new id is found by it, unchanged |
| Database.SessionCreatedThenFound | server/database.rs:168-212 | a session inserted for a new user and device pair is found by them |
| Database.LinkCreatedThenFound | server/database.rs:228-274 | a link inserted under a new token is found by it, unchanged |
| Database.LastLoginUpdate | server/database.rs:68-78 | only `last_login` of the user with that id changes |
| Database.SessionUpdate | server/database.rs:214-226 | only `last_sync`, `sync_folders` and `is_active` of the session with that id change |
| Database.SessionUpdateThenFound | server/database.rs:188-226 | the looked-up session, once updated, is found with the new values |
| Database.ChangesReported | server/database.rs:276-319 | every change is `Modified`, of the user's file, stamped with its modification time after the cursor, in ascending time |
| Database.RecordsOf | server/database.rs:143-165 | each row is read back into its record, in order |
| Database.ChangesOf | server/database.rs:285-318 | each row becomes its change, in order |
| Database.Database.constructor | server/database.rs:12-19 | the four tables as given |
| Database.Database.CreateUser | server/database.rs:21-40 | the user is appended, and the other tables are unchanged |
| Database.Database.GetUserByUsername | server/database.rs:42-66 | the first user with that username |
| Database.Database.UpdateLastLogin | server/database.rs:68-78 | the users table after the update, the other tables unchanged |
| Database.Database.CreateFileMetadata | server/database.rs:80-104 | the record's row is appended, the other tables unchanged |
| Database.Database.GetFileMetadata | server/database.rs:106-134 | the first record with that id |
| Database.Database.ListFilesInDirectory | server/database.rs:136-166 | the records of the sorted matching rows, in order |
| Database.Database.CreateSyncSession | server/database.rs:168-186 | the session is appended, the other tables unchanged |
| Database.Database.GetSyncSession | server/database.rs:188-212 | the first session of that user and device |
| Database.Database.UpdateSyncSession | server/database.rs:214-226 | the sessions table after the update, the other tables unchanged |
| Database.Database.CreateShareLink | server/database.rs:228-249 | the link's row is appended, the other tables unchanged |
| Database.Database.GetShareLinkByToken | server/database.rs:251-274 | the first link with that token |
| Database.Database.GetFilesChangedSince | server/database.rs:276-319 | the changes of the sorted matching rows, in order |
| Parsing.ParseBool | server/handlers.rs:66-68 | exactly `true` and `false` parse |
| Parsing.ParseShowI64 | server/handlers.rs:273-275 | every `i64` reads back from its decimal form |
| Parsing.ParsedI64Value | server/handlers.rs:273-275 | an accepted string is an optional sign and digits, and its value is theirs |
| Parsing.ParseI64Range | server/handlers.rs:273-275 | a value outside `i64` does not parse |
| Parsing.ParseU32 | server/handlers.rs:277-278 | nothing beginning with `-` parses as a `u32` |
| Parsing.ParseShowU32 | server/handlers.rs:277-278 | every `u32` reads back from its decimal form |
| Parsing.ParseU32Range | server/handlers.rs:277-278 | a value of 2^32 or more does not parse |
| Parsing.ParseRejectsBareSign | server/handlers.rs:273-278 | the empty string and a bare sign do not parse |
| Handlers.RequestPath | server/handlers.rs:65 | the `path` parameter, `/` when absent |
| Handlers.OverwriteOnlyWhenTrue | server/handlers.rs:66-68 | overwriting is allowed exactly when `overwrite` is `true` |
| Handlers.ExpiresInHoursDefault | server/handlers.rs:273-275 | 24 hours when the parameter is absent or unreadable; any `i64` is taken |
| Handlers.MaxDownloadsParsed | server/handlers.rs:277-278 | no limit when absent; any `u32` is taken |
| Handlers.JoinTargetComponents | server/handlers.rs:75-79 | the target's components are the directory's, then the name's, whether or not the directory ends with `/` |
| Handlers.JoinTargetName | server/handlers.rs:75-79 | a plain file name is the target's last component, and the target does not end in a separator |
| Handlers.JoinTargetEnd | server/handlers.rs:75-79 | the target ends in a separator exactly when the file name is empty or `.` |
| Handlers.SyncCursor | server/handlers.rs:234-236 | the client's last sync, or 24 hours before now |
| Handlers.UploadFirstFieldOnly | server/handlers.rs:70-111 | without a field the upload is refused and nothing changes; only the first field matters |
| Handlers.UploadRefusesExisting | server/handlers.rs:81-86 | without `overwrite=true` a target that exists is refused and nothing changes; a target ending in a separator exists only as a directory |
| Handlers.UploadSteps | server/handlers.rs:70-108 | a successful upload had a field and a readable caller id; it saved the first field's bytes at the target, appended the saved record with the caller as owner, and replied with its id, path, size and checksum |
| Handlers.UploadStores | server/handlers.rs:88-108 | a successful upload stores the bytes at the target and appends one record, owned by the caller, found by its id and echoed in the reply |
| Handlers.FolderNeedsCaller | server/handlers.rs:183-184 | an unreadable caller id fails with 500 before anything is created |
| Handlers.FolderCreates | server/handlers.rs:186-201 | the folder and its ancestors exist, and its record, owned by the caller, is stored and returned |
| Handlers.ShareLinkOwnership | server/handlers.rs:263-271 | a link is granted exactly to the owner of an existing file; otherwise the refusal says why and nothing is stored |
| Handlers.ShareLinkGranted | server/handlers.rs:273-295 | the granted link has the file, the creator, the expiry, the download limit and a zero count, and is found by its token |
| Handlers.ReownedListing | server/handlers.rs:163-174 | setting the caller as owner of every record of a listing gives the directory's listing with that owner |
| Handlers.UploadFile | server/handlers.rs:58-112 | the tree, the records and the reply are those of `Upload` |
| Handlers.ListFiles | server/handlers.rs:153-175 | 500 for an unreadable caller id; 404 exactly when the path is not a directory; otherwise the listing, owned by the caller |
| Handlers.CreateFolder | server/handlers.rs:177-202 | the tree, the records and the reply are those of `Folder` |
| Handlers.SyncFiles | server/handlers.rs:225-249 | 500 for an unreadable caller id; otherwise the caller's changes after the cursor, in order, with the given token |
| Handlers.CreateShareLink | server/handlers.rs:251-296 | the links and the reply are those of `GrantShareLink` |
| MyCloud.GroupMembers | server/mycloud.rs:199-226 | what one group contributes |
| MyCloud.GrantedMembers | server/mycloud.rs:199-226 | a permission is collected exactly when some group grants it |
| MyCloud.PermissionsSorted | server/mycloud.rs:228-230 | the permissions are strictly ascending, so there are no repeats |
| MyCloud.PermissionsMembers | server/mycloud.rs:197-231 | a permission is in the result exactly when one of the groups contributes it |
| MyCloud.PermissionsExact | server/mycloud.rs:197-231 | the result is `admin, delete, read, share, write` with administrators, else `read, share, write` with users, else `read` for any group, else empty |
| MyCloud.PermissionsOrderInsensitive | server/mycloud.rs:200-230 | lists with the same groups give the same result, whatever their order or repetition |
| MyCloud.PermissionsExamples | server/mycloud.rs:202-226 | the results for `administrators`, `users`, `guests`, an unknown group and no group |
| MyCloud.MyCloudIntegration.constructor | server/mycloud.rs:41-57 | no session token at first |
| MyCloud.MyCloudIntegration.EnsureAuthenticated | server/mycloud.rs:190-195 | fails, with `Not authenticated with MyCloud`, exactly when there is no session token |
| MyCloud.MyCloudIntegration.MapMyCloudPermissions | server/mycloud.rs:197-231 | the loop's result is the sorted, deduplicated mapping; it is strictly ascending and holds exactly the granted permissions |
| MyCloud.MyCloudIntegration.SyncUserToLocal | server/mycloud.rs:153-166 | the user has the account's username, email, activity and last login, the given hash, id and time, and the mapped permissions |
| Config.Utf8Width | server/config.rs:135 | a character takes one to four bytes, and one exactly when it is ASCII |
| Config.Utf8LengthBounds | server/config.rs:135 | a string takes between one and four bytes per character |
| Config.Utf8LengthAscii | server/config.rs:135 | a string takes one byte per character exactly when it is ASCII |
| Config.ValidateAccepts | server/config.rs:128-154 | a configuration validates exactly when every check passes |
| Config.ValidateOrder | server/config.rs:128-154 | each check's message is reported exactly when the checks before it pass |
| Config.SecretLength | server/config.rs:135-137 | a secret of 32 characters always passes the byte check, and one of fewer than 8 never does |
| Config.DefaultValues | server/config.rs:56-101 | port 8080, 100 MiB requests, 1024 MB files, 34 extensions, a 300 s sync interval and an empty admin password |
| Config.DefaultSecretLongEnough | server/config.rs:91 | the default secret is long enough |
| Config.DefaultRejected | server/config.rs:140-142 | the defaults fail validation at the base-path check, because `./storage` is relative |
| Server.MaxFileSizeExact | server/synker_server.rs:101 | below 2^44 MB the byte limit is exact and converts back |
| Server.MaxFileSizeMonotone | server/synker_server.rs:101 | a larger setting gives a larger limit while exact |
| Server.MaxFileSizeWraps | server/synker_server.rs:101 | at 2^44 MB the `u64` product wraps to 0 |
| Server.DefaultMaxFileSize | server/synker_server.rs:99-102 | the default limit is 1 GiB |
| Server.StartFileSystem | server/synker_server.rs:99-102 | the service gets the configured base and the converted limit |
| Server.AdminKeptWhenPresent | server/synker_server.rs:226-229 | an existing administrator is left alone |
| Server.AdminInserted | server/synker_server.rs:231-250 | otherwise, even after a failed lookup, exactly one user is appended with the admin fields; a failed hash inserts nothing |
| Server.AdminCreationIdempotent | server/synker_server.rs:213-254 | after creation the lookup finds the administrator, so a second start changes nothing |
| Server.AdminPermissionsAsGroup | server/synker_server.rs:241-247 | the administrator has the same permissions as a MyCloud administrator, in a different order |
| Server.CreateInitialAdmin | server/synker_server.rs:213-254 | the outcome and the users table are those of `InitialAdmin`; the other tables are unchanged |

## Left out

- Some operations are not modelled because they need a file-system notifier or a platform API: `watch_directory` and `get_available_space` (server/filesystem.rs:230-245, 285-303).
- Authentication is not part of this model: `auth.rs`, the `login`, `download_file` and `delete_file` handlers, and `get_server_info`. The last three only pass through to storage operations that are modelled.
- The MyCloud HTTP calls and the sync service loop are network client code.
- `ServerConfig::load` is file and TOML I/O; so are serde, sqlx connection setup, axum extraction, routing and logging.
- A database error is not modelled: the tables are in memory and each statement succeeds. The administrator lookup is the exception, because its failure decides the control flow.
- The schema is not part of the source, so no uniqueness constraint is modelled: an insert always appends. The lemmas that find an inserted row therefore require its key to be new.
- Ties under `ORDER BY` and `sort_by` fall in the order the model's insertion sort leaves them. SQL leaves that order unspecified.
- `Handlers.UploadFile`: the `unwrap` panics on a malformed multipart body are not modelled; the fields arrive as a list.
- `Handlers.SyncFiles`: `SyncRequest.folders` is ignored, as the handler ignores it.
- `Handlers.SyncCursor`, `Handlers.ShareLinkGranted`: timestamps are unbounded integers of seconds, so the overflow panics of chrono's `Duration` are not modelled. Each handler reads the clock once.
- `FileSystem.FileSystemService.ListDirectory`: the model cannot reach the error path of `generate_file_metadata` inside the loop, because every child of an existing directory can be described. The order in which `read_dir` yields entries is left to the platform, so it is a parameter.
- `sort_by` and `dedup` in place are modelled on values, as `Ordering.SortByKey` and `Ordering.Dedup`.
- A path ending in a separator is kept as such: the operating system resolves it only to a directory, so on a regular file it is not found and it cannot be written, copied or renamed to.
- `..` is resolved lexically, and symbolic links are not modelled. The operating system resolves `x/..` only when `x` is a directory. Where `x` is a regular file it fails, while the model goes on.
- `FileSystem.SaveSucceeds`: with a `..` piece, the condition looks only at the entries on the way to where the path resolves. The operating system also needs the entry named before each `..` not to be a regular file.
- `FileSystem.CreateParent`, `FileSystem.Save`, `FileSystem.MakeDirectory`, `FileSystem.Move`, `FileSystem.CopyTo`: `create_dir_all` on a path holding `..` also creates every directory that a lexical prefix of the path names (for `x/../f` it leaves a new directory `x`), because it retries `mkdir` on the lexical parent. The model creates only the directories on the way to where the path resolves, so that side effect is not modelled. The same holds for `FileSystemService.New` on such a base path.
- `Paths.RelativePath` joins the remaining components with a single `/`. Rust's `to_string_lossy` keeps interior `//` and `.` pieces as written, so the round trip is stated only for canonical paths.
- `Database.SizeRoundTrip` holds for every `u64`, by two's complement. That is stronger than the usual assumption that sizes stay within `i64::MAX`.
- `Server.MaxFileSizeWraps`: the product wraps as in a release build. A debug build would panic instead.
- Passwords are hashed with bcrypt outside this model. `hash_password`'s result is a parameter.
