/**
 * `FileSystemService` (server/filesystem.rs): the storage engine. Each
 * operation is specified by a function from the tree before to an `Outcome`
 * (the tree after and the result); the class methods perform the same steps on
 * the `tree` field and are proved equal to those functions.
 */
module FileSystem {
  import opened Wrappers
  import opened Types
  import opened Ordering
  import opened Paths
  import opened Disk

  /** The read buffer of `calculate_checksum`. */
  const BUFFER_SIZE: nat := 8192

  const DIRECTORY_MIME: string := "inode/directory"
  const OCTET_STREAM: string := "application/octet-stream"

  /**
   * What the engine takes from its surroundings: the process working directory
   * (against which a relative base path resolves), SHA-256, and the MIME table
   * of `mime_guess` keyed by file extension.
   */
  datatype Env = Env(cwd: Key, sha256: seq<Byte> -> seq<Byte>, mimeByExtension: string -> Option<string>)

  /**
   * The values a metadata record draws from outside the tree: `Uuid::new_v4()`
   * for the id and the owner placeholder, and the file's creation and
   * modification times (or `Utc::now()` when the platform has none).
   */
  datatype Fresh = Fresh(id: Uuid, ownerId: Uuid, createdAt: Timestamp, modifiedAt: Timestamp)

  /** The two fields of the service, and the environment. */
  datatype Settings = Settings(basePath: PathBuf, maxFileSize: u64, env: Env) {
    predicate WellFormed() {
      basePath.WellFormed() && IsKey(env.cwd)
    }
  }

  const ALL_PERMISSIONS: FilePermissions := FilePermissions(true, true, true, true)

  // ---------------------------------------------------------------------------
  // Checksums and MIME types

  function HexDigit(n: int): (c: char)
    requires 0 <= n < 16
  {
    "0123456789abcdef"[n]
  }

  /** `format!("{:x}", digest)`: two lower-case hex digits per byte, high nibble first. */
  function HexLower(bytes: seq<Byte>): (r: string)
    ensures |r| == 2 * |bytes|
    ensures forall i | 0 <= i < |bytes| ::
      r[2 * i] == HexDigit(bytes[i] / 16) && r[2 * i + 1] == HexDigit(bytes[i] % 16)
  {
    if bytes == [] then []
    else
      var rest := HexLower(bytes[1..]);
      assert forall i | 1 <= i < |bytes| :: bytes[i] == bytes[1..][i - 1];
      [HexDigit(bytes[0] / 16), HexDigit(bytes[0] % 16)] + rest
  }

  /** The sixteen digits are distinct. */
  lemma HexDigitInjective(x: int, y: int)
    requires 0 <= x < 16 && 0 <= y < 16 && HexDigit(x) == HexDigit(y)
    ensures x == y
  {
  }

  lemma Nibbles(x: Byte)
    ensures 0 <= x / 16 < 16 && 0 <= x % 16 < 16 && x == 16 * (x / 16) + x % 16
  {
  }

  /** Different digests print differently: the checksum string identifies the digest. */
  lemma HexLowerInjective(a: seq<Byte>, b: seq<Byte>)
    requires HexLower(a) == HexLower(b)
    ensures a == b
  {
    assert |a| == |b|;
    forall i | 0 <= i < |a|
      ensures a[i] == b[i]
    {
      Nibbles(a[i]);
      Nibbles(b[i]);
      assert HexLower(a)[2 * i] == HexLower(b)[2 * i] && HexLower(a)[2 * i + 1] == HexLower(b)[2 * i + 1];
      HexDigitInjective(a[i] / 16, b[i] / 16);
      HexDigitInjective(a[i] % 16, b[i] % 16);
    }
  }

  /** The hex SHA-256 of some bytes. */
  function Checksum(env: Env, bytes: seq<Byte>): (r: string)
    ensures |r| == 2 * |env.sha256(bytes)|
  {
    HexLower(env.sha256(bytes))
  }

  /** `file_name()` with `unwrap_or("")`. */
  function NameOf(p: PathBuf): (r: string)
    ensures FileName(p).Some? ==> r == FileName(p).value
    ensures FileName(p).None? ==> r == ""
  {
    match FileName(p)
    case Some(n) => n
    case None => ""
  }

  /** `from_path(path).first_or_octet_stream()`: the table entry for the extension, if any. */
  function MimeType(env: Env, p: PathBuf): (r: string)
    ensures (FileName(p).None? || Extension(FileName(p).value).None?) ==> r == OCTET_STREAM
  {
    match FileName(p)
    case None => OCTET_STREAM
    case Some(n) =>
      match Extension(n)
      case None => OCTET_STREAM
      case Some(e) =>
        match env.mimeByExtension(e)
        case None => OCTET_STREAM
        case Some(m) => m
  }

  // ---------------------------------------------------------------------------
  // Metadata

  /**
   * `Path::exists`, and the `metadata` call behind it: an entry at the location,
   * which must be a directory when the path ends in a separator.
   */
  predicate Found(cwd: Key, t: Tree, p: PathBuf) {
    var k := Resolve(cwd, p);
    k in t && (p.trailing ==> t[k].Dir?)
  }

  /**
   * `generate_file_metadata` (server/filesystem.rs:158-212): an entry the
   * path does not find fails the `metadata` call; a path outside the base fails
   * `get_relative_path`; otherwise the record describes the entry.
   */
  function Describe(st: Settings, t: Tree, p: PathBuf, stamp: Fresh): (r: Result<FileMetadata, FsError>)
    ensures !Found(st.env.cwd, t, p) ==> r == Err(NotFound)
    ensures Found(st.env.cwd, t, p) ==> (r.Ok? <==> RelativePath(st.basePath, p).Ok?)
    ensures r.Err? ==> r.error in {NotFound, InvalidPath}
    ensures r.Ok? ==>
      var n := t[Resolve(st.env.cwd, p)];
      && r.value.isDirectory == n.Dir?
      && r.value.size == NodeBytes(n)
      && r.value.name == NameOf(p)
      && r.value.path == RelativePath(st.basePath, p).value
      && r.value.parentId == None
      && r.value.permissions == ALL_PERMISSIONS
      && r.value.id == stamp.id
  {
    var k := Resolve(st.env.cwd, p);
    if !Found(st.env.cwd, t, p) then Err(NotFound)
    else
      match RelativePath(st.basePath, p)
      case Err(e) => Err(e)
      case Ok(relative) => Ok(Record(st, t[k], p, relative, stamp))
  }

  /** The record `generate_file_metadata` builds for an entry `n` found at `p`. */
  function Record(st: Settings, n: Node, p: PathBuf, relative: string, stamp: Fresh): (m: FileMetadata)
    ensures m.isDirectory == n.Dir? && m.size == NodeBytes(n)
    ensures m.name == NameOf(p) && m.path == relative && m.parentId == None && m.permissions == ALL_PERMISSIONS
    ensures m.id == stamp.id && m.ownerId == stamp.ownerId
  {
    FileMetadata(
      id := stamp.id,
      name := NameOf(p),
      path := relative,
      size := if n.Dir? then 0 else |n.content|,
      mimeType := if n.Dir? then DIRECTORY_MIME else MimeType(st.env, p),
      checksum := if n.Dir? then "" else Checksum(st.env, n.content),
      createdAt := stamp.createdAt,
      modifiedAt := stamp.modifiedAt,
      ownerId := stamp.ownerId,
      isDirectory := n.Dir?,
      parentId := None,
      permissions := ALL_PERMISSIONS)
  }

  /** A directory is described by the sentinels: size 0, `inode/directory`, no checksum. */
  lemma DescribeDirectory(st: Settings, t: Tree, p: PathBuf, stamp: Fresh)
    requires IsDir(t, Resolve(st.env.cwd, p))
    requires Describe(st, t, p, stamp).Ok?
    ensures var m := Describe(st, t, p, stamp).value;
      m.isDirectory && m.size == 0 && m.mimeType == DIRECTORY_MIME && m.checksum == ""
  {
  }

  /** A file is described by its length, the hex SHA-256 of its bytes and its MIME type. */
  lemma DescribeFile(st: Settings, t: Tree, p: PathBuf, stamp: Fresh)
    requires IsFile(t, Resolve(st.env.cwd, p))
    requires Describe(st, t, p, stamp).Ok?
    ensures var m := Describe(st, t, p, stamp).value;
      var c := t[Resolve(st.env.cwd, p)].content;
      && !m.isDirectory && m.size == |c|
      && m.checksum == Checksum(st.env, c) && |m.checksum| == 2 * |st.env.sha256(c)|
      && m.mimeType == MimeType(st.env, p)
  {
  }

  /**
   * Every path the engine builds from a request lies under the base, so
   * describing it only needs the entry: any entry, or a directory when the
   * request ends in a separator.
   */
  lemma DescribeUnderBase(st: Settings, t: Tree, relative: string, stamp: Fresh)
    ensures var p := AbsolutePath(st.basePath, relative);
      var k := Resolve(st.env.cwd, p);
      Describe(st, t, p, stamp).Ok? <==> k in t && (DirSyntax(relative) ==> IsDir(t, k))
  {
  }

  // ---------------------------------------------------------------------------
  // Operations

  /** `create_dir_all` of a path's parent, where it has one. */
  function CreateParent(st: Settings, t: Tree, p: PathBuf): (r: Result<Tree, FsError>)
    ensures Parent(p).None? ==> r == Ok(t)
    ensures Parent(p).Some? ==> r == CreateDirAll(t, Resolve(st.env.cwd, Parent(p).value))
  {
    match Parent(p)
    case None => Ok(t)
    case Some(q) => CreateDirAll(t, Resolve(st.env.cwd, q))
  }

  lemma CreateParentValid(st: Settings, t: Tree, p: PathBuf)
    requires st.WellFormed() && Valid(t) && p.WellFormed()
    ensures CreateParent(st, t, p).Ok? ==> Valid(CreateParent(st, t, p).value)
    ensures CreateParent(st, t, p).Ok? ==> forall j | j in t :: j in CreateParent(st, t, p).value && CreateParent(st, t, p).value[j] == t[j]
  {
    if Parent(p).Some? {
      CreateDirAllValid(t, Resolve(st.env.cwd, Parent(p).value));
    }
  }

  /** `fs::write`: a path ending in a separator cannot be opened as a file. */
  function WritePath(st: Settings, t: Tree, p: PathBuf, data: Content): (r: Result<Tree, FsError>)
    ensures p.trailing ==> r == Err(IoFailure)
    ensures !p.trailing ==> r == WriteFile(t, Resolve(st.env.cwd, p), data)
  {
    if p.trailing then Err(IoFailure) else WriteFile(t, Resolve(st.env.cwd, p), data)
  }

  /** `fs::copy` to a path: the destination is opened as a file, so one ending in a separator fails. */
  function CopyToPath(st: Settings, t: Tree, from: Key, p: PathBuf): (r: Result<Tree, FsError>)
    ensures p.trailing ==> r == Err(IoFailure)
    ensures !p.trailing ==> r == Copy(t, from, Resolve(st.env.cwd, p))
  {
    if p.trailing then Err(IoFailure) else Copy(t, from, Resolve(st.env.cwd, p))
  }

  /** `fs::rename` to a path: a file cannot take a name that ends in a separator. */
  function RenameToPath(st: Settings, t: Tree, from: Key, p: PathBuf): (r: Result<Tree, FsError>)
    ensures p.trailing && IsFile(t, from) ==> r == Err(IoFailure)
    ensures !(p.trailing && IsFile(t, from)) ==> r == Rename(t, from, Resolve(st.env.cwd, p))
  {
    if p.trailing && IsFile(t, from) then Err(IoFailure) else Rename(t, from, Resolve(st.env.cwd, p))
  }

  /** `save_file` (server/filesystem.rs:47-65). */
  function Save(st: Settings, t: Tree, relative: string, data: seq<Byte>, stamp: Fresh): (r: Outcome<FileMetadata>)
  {
    if |data| > st.maxFileSize then Outcome(t, Err(SizeExceeded))
    else
      var abs := AbsolutePath(st.basePath, relative);
      match CreateParent(st, t, abs)
      case Err(e) => Outcome(t, Err(e))
      case Ok(t1) =>
        match WritePath(st, t1, abs, data)
        case Err(e) => Outcome(t1, Err(e))
        case Ok(t2) => Outcome(t2, Describe(st, t2, abs, stamp))
  }

  /** `read_file` (server/filesystem.rs:67-76). */
  function Read(st: Settings, t: Tree, relative: string): (r: Result<Content, FsError>)
    ensures var k := Resolve(st.env.cwd, AbsolutePath(st.basePath, relative));
      && (k !in t || (IsFile(t, k) && DirSyntax(relative)) <==> r == Err(NotFound))
      && (IsDir(t, k) <==> r == Err(IoFailure))
      && (r.Ok? <==> IsFile(t, k) && !DirSyntax(relative))
      && (IsFile(t, k) && !DirSyntax(relative) ==> r == Ok(t[k].content))
  {
    var p := AbsolutePath(st.basePath, relative);
    var k := Resolve(st.env.cwd, p);
    if !Found(st.env.cwd, t, p) then Err(NotFound)
    else if t[k].Dir? then Err(IoFailure)
    else Ok(t[k].content)
  }

  /**
   * `delete_file` (server/filesystem.rs:78-92): `NotFound` unless the path finds
   * an entry, then `remove_dir_all` on a directory and `remove_file` otherwise.
   */
  function Delete(st: Settings, t: Tree, relative: string): (r: Outcome<()>)
    ensures var k := Resolve(st.env.cwd, AbsolutePath(st.basePath, relative));
      && (IsFile(t, k) && DirSyntax(relative) ==> r == Outcome(t, Err(NotFound)))
      && (!(IsFile(t, k) && DirSyntax(relative)) ==> r == DeleteAt(t, k))
  {
    var p := AbsolutePath(st.basePath, relative);
    if !Found(st.env.cwd, t, p) then Outcome(t, Err(NotFound))
    else DeleteAt(t, Resolve(st.env.cwd, p))
  }

  /** The removal `delete_file` performs at a resolved location. */
  function DeleteAt(t: Tree, k: Key): (r: Outcome<()>)
  {
    if k !in t then Outcome(t, Err(NotFound))
    else if t[k].Dir? then RemoveAll(t, k)
    else Outcome(RemoveFile(t, k), Ok(()))
  }

  /** `create_directory` (server/filesystem.rs:94-101). */
  function MakeDirectory(st: Settings, t: Tree, relative: string, stamp: Fresh): (r: Outcome<FileMetadata>)
  {
    var abs := AbsolutePath(st.basePath, relative);
    match CreateDirAll(t, Resolve(st.env.cwd, abs))
    case Err(e) => Outcome(t, Err(e))
    case Ok(t1) => Outcome(t1, Describe(st, t1, abs, stamp))
  }

  /** `move_file` (server/filesystem.rs:103-118). */
  function Move(st: Settings, t: Tree, oldPath: string, newPath: string): (r: Outcome<()>)
  {
    var oldAbs := AbsolutePath(st.basePath, oldPath);
    var newAbs := AbsolutePath(st.basePath, newPath);
    var from := Resolve(st.env.cwd, oldAbs);
    if !Found(st.env.cwd, t, oldAbs) then Outcome(t, Err(NotFound))
    else
      match CreateParent(st, t, newAbs)
      case Err(e) => Outcome(t, Err(e))
      case Ok(t1) =>
        match RenameToPath(st, t1, from, newAbs)
        case Err(e) => Outcome(t1, Err(e))
        case Ok(t2) => Outcome(t2, Ok(()))
  }

  /** `copy_file` (server/filesystem.rs:266-283). */
  function CopyTo(st: Settings, t: Tree, sourcePath: string, destPath: string, stamp: Fresh): (r: Outcome<FileMetadata>)
  {
    var srcAbs := AbsolutePath(st.basePath, sourcePath);
    var dstAbs := AbsolutePath(st.basePath, destPath);
    var from := Resolve(st.env.cwd, srcAbs);
    if !Found(st.env.cwd, t, srcAbs) then Outcome(t, Err(NotFound))
    else
      match CreateParent(st, t, dstAbs)
      case Err(e) => Outcome(t, Err(e))
      case Ok(t1) =>
        match CopyToPath(st, t1, from, dstAbs)
        case Err(e) => Outcome(t1, Err(e))
        case Ok(t2) => Outcome(t2, Describe(st, t2, dstAbs, stamp))
  }

  /** `get_file_metadata` (server/filesystem.rs:147-156). */
  function Metadata(st: Settings, t: Tree, relative: string, stamp: Fresh): (r: Result<FileMetadata, FsError>)
    ensures var k := Resolve(st.env.cwd, AbsolutePath(st.basePath, relative));
      k !in t || (IsFile(t, k) && DirSyntax(relative)) <==> r == Err(NotFound)
    ensures r.Ok? || r == Err(NotFound)
  {
    var abs := AbsolutePath(st.basePath, relative);
    if !Found(st.env.cwd, t, abs) then Err(NotFound)
    else Describe(st, t, abs, stamp)
  }

  /** `get_directory_size` (server/filesystem.rs:247-264): `u64` addition wraps. */
  ghost function DirectorySize(st: Settings, t: Tree, relative: string): (r: Result<u64, FsError>)
  {
    var p := AbsolutePath(st.basePath, relative);
    var k := Resolve(st.env.cwd, p);
    if !Found(st.env.cwd, t, p) then Err(NotFound) else Ok(WrapU64(SubtreeBytes(t, k)))
  }

  // ---------------------------------------------------------------------------
  // Listings

  /** The order of `list_directory`: directories first, then by name. */
  function ListKey(m: FileMetadata): (r: seq<int>)
    ensures |r| == |m.name| + 1 && r[0] == (if m.isDirectory then 0 else 1)
  {
    [if m.isDirectory then 0 else 1] + Codes(m.name)
  }

  /** `entry.path()`: the directory's path joined with the entry's name. */
  function ChildPath(dir: PathBuf, name: string): (r: PathBuf)
  {
    PathBuf(dir.rooted, dir.parts + [name], false)
  }

  /** What `generate_file_metadata` yields for each entry of the directory `k` that `dir` names. */
  ghost function Entries(st: Settings, t: Tree, dir: PathBuf, stamps: Key -> Fresh): set<Result<FileMetadata, FsError>>
  {
    var k := Resolve(st.env.cwd, dir);
    set c | c in Children(t, k) :: Describe(st, t, ChildPath(dir, c[|k|]), stamps(c))
  }

  /** One record per entry, each described, in strictly ascending listing order. */
  ghost predicate IsListing(list: seq<FileMetadata>, entries: set<Result<FileMetadata, FsError>>) {
    && StrictlySortedBy(list, ListKey)
    && (forall m :: m in list <==> Ok(m) in entries)
    && (forall e | e in entries :: e.Ok?)
  }

  /** The listing is determined by the directory: any two agree. */
  lemma ListingUnique(a: seq<FileMetadata>, b: seq<FileMetadata>, entries: set<Result<FileMetadata, FsError>>)
    requires IsListing(a, entries) && IsListing(b, entries)
    ensures a == b
  {
    StrictlySortedUnique(a, b, ListKey);
  }

  /** Directories precede files, and names ascend strictly among each kind. */
  lemma ListingOrder(list: seq<FileMetadata>, entries: set<Result<FileMetadata, FsError>>, i: int, j: int)
    requires IsListing(list, entries) && 0 <= i < j < |list|
    ensures list[i].isDirectory || !list[j].isDirectory
    ensures list[i].isDirectory == list[j].isDirectory ==> LexLt(Codes(list[i].name), Codes(list[j].name))
  {
    var a, b := list[i], list[j];
    assert LexLt(ListKey(a), ListKey(b));
    var x, y := if a.isDirectory then 0 else 1, if b.isDirectory then 0 else 1;
    assert ListKey(a) == [x] + Codes(a.name) && ListKey(b) == [y] + Codes(b.name);
    LexLeCons(x, Codes(a.name), y, Codes(b.name));
  }

  /** The children of a directory under the base are all described, each under its own name. */
  lemma ChildDescribed(st: Settings, t: Tree, dir: PathBuf, c: Key)
    requires Valid(t)
    requires dir.rooted == st.basePath.rooted && st.basePath.parts <= dir.parts
    requires c in Children(t, Resolve(st.env.cwd, dir))
    ensures var child := ChildPath(dir, c[|Resolve(st.env.cwd, dir)|]);
      && Resolve(st.env.cwd, child) == c
      && RelativePath(st.basePath, child).Ok?
      && NameOf(child) == c[|Resolve(st.env.cwd, dir)|]
  {
    var k := Resolve(st.env.cwd, dir);
    var name := c[|k|];
    assert IsName(name);
    ResolveAppendNames(st.env.cwd, dir, [name], ChildPath(dir, name));
    assert c == k + [name];
  }

  /** Names tell the children of one directory apart, and so do their listing keys. */
  lemma ChildKeysDistinct(st: Settings, t: Tree, dir: PathBuf, k: Key, c1: Key, c2: Key, m1: FileMetadata, m2: FileMetadata)
    requires c1 in Children(t, k) && c2 in Children(t, k) && c1 != c2
    requires m1.name == c1[|k|] && m2.name == c2[|k|]
    ensures ListKey(m1) != ListKey(m2)
  {
    assert c1 == k + [c1[|k|]] && c2 == k + [c2[|k|]];
    if ListKey(m1) == ListKey(m2) {
      assert ListKey(m1)[1..] == Codes(m1.name) && ListKey(m2)[1..] == Codes(m2.name);
      CodesInjective(m1.name, m2.name);
    }
  }

  /** The first `|entries|` children in `order` are described by `entries`, each under its own name. */
  ghost predicate DescribedPrefix(st: Settings, t: Tree, dir: PathBuf, k: Key, stamps: Key -> Fresh,
                                  order: seq<Key>, entries: seq<FileMetadata>)
  {
    && |entries| <= |order|
    && forall j | 0 <= j < |entries| ::
      && |order[j]| > |k|
      && Describe(st, t, ChildPath(dir, order[j][|k|]), stamps(order[j])) == Ok(entries[j])
      && entries[j].name == order[j][|k|]
  }

  lemma DescribedPrefixSnoc(st: Settings, t: Tree, dir: PathBuf, k: Key, stamps: Key -> Fresh,
                            order: seq<Key>, entries: seq<FileMetadata>, m: FileMetadata)
    requires DescribedPrefix(st, t, dir, k, stamps, order, entries) && |entries| < |order|
    requires var c := order[|entries|];
      |c| > |k| && Describe(st, t, ChildPath(dir, c[|k|]), stamps(c)) == Ok(m) && m.name == c[|k|]
    ensures DescribedPrefix(st, t, dir, k, stamps, order, entries + [m])
  {
    var e := entries + [m];
    forall j | 0 <= j < |e|
      ensures && |order[j]| > |k|
              && Describe(st, t, ChildPath(dir, order[j][|k|]), stamps(order[j])) == Ok(e[j])
              && e[j].name == order[j][|k|]
    {
      if j < |entries| {
        assert e[j] == entries[j];
      }
    }
  }

  /** The loop's record of a directory's entries: one described record per child, each child once. */
  ghost predicate Collected(st: Settings, t: Tree, dir: PathBuf, k: Key, stamps: Key -> Fresh,
                            entries: seq<FileMetadata>, picked: seq<Key>)
  {
    && |picked| == |entries|
    && (forall c | c in Children(t, k) :: c in picked)
    && (forall i | 0 <= i < |picked| ::
      && picked[i] in Children(t, k)
      && Describe(st, t, ChildPath(dir, picked[i][|k|]), stamps(picked[i])) == Ok(entries[i])
      && entries[i].name == picked[i][|k|])
    && (forall i, j | 0 <= i < j < |picked| :: picked[i] != picked[j])
  }

  /** Records collected once per child, in any order, sort into the listing. */
  lemma SortedEntriesListing(st: Settings, t: Tree, dir: PathBuf, k: Key, stamps: Key -> Fresh,
                             entries: seq<FileMetadata>, picked: seq<Key>)
    requires Valid(t) && k == Resolve(st.env.cwd, dir)
    requires dir.rooted == st.basePath.rooted && st.basePath.parts <= dir.parts
    requires Collected(st, t, dir, k, stamps, entries, picked)
    ensures IsListing(SortByKey(entries, ListKey), Entries(st, t, dir, stamps))
  {
    CollectedDistinct(st, t, dir, k, stamps, entries, picked);
    var sorted := SortByKey(entries, ListKey);
    SortByKeyStrict(entries, ListKey);
    var all := Entries(st, t, dir, stamps);
    forall m
      ensures m in sorted <==> Ok(m) in all
    {
      assert m in sorted <==> m in multiset(sorted);
      assert m in entries <==> m in multiset(entries);
      CollectedMember(st, t, dir, k, stamps, entries, picked, m);
    }
    forall e | e in all
      ensures e.Ok?
    {
      var c :| c in Children(t, k) && Describe(st, t, ChildPath(dir, c[|k|]), stamps(c)) == e;
      ChildDescribed(st, t, dir, c);
    }
  }

  lemma CollectedDistinct(st: Settings, t: Tree, dir: PathBuf, k: Key, stamps: Key -> Fresh,
                          entries: seq<FileMetadata>, picked: seq<Key>)
    requires Collected(st, t, dir, k, stamps, entries, picked)
    ensures DistinctKeys(entries, ListKey)
  {
    forall i, j | 0 <= i < j < |entries|
      ensures ListKey(entries[i]) != ListKey(entries[j])
    {
      ChildKeysDistinct(st, t, dir, k, picked[i], picked[j], entries[i], entries[j]);
    }
  }

  lemma CollectedMember(st: Settings, t: Tree, dir: PathBuf, k: Key, stamps: Key -> Fresh,
                        entries: seq<FileMetadata>, picked: seq<Key>, m: FileMetadata)
    requires Collected(st, t, dir, k, stamps, entries, picked)
    requires k == Resolve(st.env.cwd, dir)
    ensures m in entries <==> Ok(m) in Entries(st, t, dir, stamps)
  {
    if m in entries {
      var i :| 0 <= i < |entries| && entries[i] == m;
      assert picked[i] in Children(t, k);
    }
    if Ok(m) in Entries(st, t, dir, stamps) {
      var c :| c in Children(t, k) && Describe(st, t, ChildPath(dir, c[|k|]), stamps(c)) == Ok(m);
      var i :| 0 <= i < |picked| && picked[i] == c;
    }
  }

  // ---------------------------------------------------------------------------
  // Properties of the operations

  /** The size check comes first and is the only source of `SizeExceeded`; a file of exactly the limit passes. */
  lemma SaveSizeLimit(st: Settings, t: Tree, relative: string, data: seq<Byte>, stamp: Fresh)
    ensures Save(st, t, relative, data, stamp).result == Err(SizeExceeded) <==> |data| > st.maxFileSize
    ensures |data| > st.maxFileSize ==> Save(st, t, relative, data, stamp).tree == t
  {
    if |data| <= st.maxFileSize {
      var abs := AbsolutePath(st.basePath, relative);
      var c := CreateParent(st, t, abs);
      if c.Ok? {
        var w := WritePath(st, c.value, abs, data);
        if w.Ok? {
          var d := Describe(st, w.value, abs, stamp);
          assert d.Err? ==> d.error in {NotFound, InvalidPath};
        }
      }
    }
  }

  /** What a successful save consists of: the parent created, the file written, the record taken. */
  lemma SaveSteps(st: Settings, t: Tree, relative: string, data: seq<Byte>, stamp: Fresh)
    requires Save(st, t, relative, data, stamp).result.Ok?
    ensures var abs := AbsolutePath(st.basePath, relative);
      var o := Save(st, t, relative, data, stamp);
      && |data| <= st.maxFileSize
      && !DirSyntax(relative)
      && CreateParent(st, t, abs).Ok?
      && o.tree == CreateParent(st, t, abs).value[Resolve(st.env.cwd, abs) := File(data)]
      && o.result == Describe(st, o.tree, abs, stamp)
  {
  }

  /** After a successful save the file reads back as the data, and the metadata describes it. */
  lemma SaveThenRead(st: Settings, t: Tree, relative: string, data: seq<Byte>, stamp: Fresh)
    requires Save(st, t, relative, data, stamp).result.Ok?
    ensures var o := Save(st, t, relative, data, stamp);
      && Read(st, o.tree, relative) == Ok(data)
      && !o.result.value.isDirectory
      && o.result.value.size == |data|
      && o.result.value.checksum == Checksum(st.env, data)
      && o.result.value.name == NameOf(AbsolutePath(st.basePath, relative))
      && o.result.value.id == stamp.id
  {
    SaveSteps(st, t, relative, data, stamp);
    var abs := AbsolutePath(st.basePath, relative);
    var o := Save(st, t, relative, data, stamp);
    DescribeFile(st, o.tree, abs, stamp);
  }

  /**
   * Saving succeeds whenever the size fits, the path ends in a name and no
   * file blocks the way to where it resolves: missing directories are created.
   * Earlier `..` pieces are allowed.
   */
  lemma SaveSucceeds(st: Settings, t: Tree, relative: string, data: seq<Byte>, stamp: Fresh)
    requires |data| <= st.maxFileSize
    requires Components(relative) != [] && Components(relative)[|Components(relative)| - 1] != ".."
    requires !DirSyntax(relative)
    requires var k := Resolve(st.env.cwd, AbsolutePath(st.basePath, relative));
      !IsDir(t, k) && forall i | 0 <= i < |k| :: !IsFile(t, k[..i])
    ensures Save(st, t, relative, data, stamp).result.Ok?
  {
    var abs := AbsolutePath(st.basePath, relative);
    var ns := Components(relative);
    SaveTarget(st.env.cwd, st.basePath, relative);
    var pk := Resolve(st.env.cwd, Parent(abs).value);
    CreateThenWrite(t, pk, ns[|ns| - 1], data);
    var t1 := CreateDirAll(t, pk).value;
    assert CreateParent(st, t, abs) == Ok(t1);
    var t2 := WritePath(st, t1, abs, data).value;
    assert Save(st, t, relative, data, stamp) == Outcome(t2, Describe(st, t2, abs, stamp));
    assert Found(st.env.cwd, t2, abs);
    DescribeUnderBase(st, t2, relative, stamp);
  }

  /**
   * A path whose last component is `..` names a directory, which `write` cannot
   * open: past the size check, the save fails.
   */
  lemma SaveToDotDotFails(st: Settings, t: Tree, relative: string, data: seq<Byte>, stamp: Fresh)
    requires |data| <= st.maxFileSize
    requires Components(relative) != [] && Components(relative)[|Components(relative)| - 1] == ".."
    ensures Save(st, t, relative, data, stamp).result == Err(IoFailure)
  {
    var abs := AbsolutePath(st.basePath, relative);
    SaveTargetDotDot(st.env.cwd, st.basePath, relative);
    var c := CreateParent(st, t, abs);
    if c.Err? {
      assert Save(st, t, relative, data, stamp) == Outcome(t, Err(IoFailure));
    } else {
      var b := Resolve(st.env.cwd, Parent(abs).value);
      assert IsDir(c.value, b[..|Resolve(st.env.cwd, abs)|]);
      assert WritePath(st, c.value, abs, data) == Err(IoFailure);
      assert Save(st, t, relative, data, stamp) == Outcome(c.value, Err(IoFailure));
    }
  }

  /**
   * A request path ending in a separator names a directory: on a regular file
   * there is nothing to read, describe, measure or delete.
   */
  lemma SeparatorAfterFile(st: Settings, t: Tree, relative: string, stamp: Fresh)
    requires DirSyntax(relative)
    requires IsFile(t, Resolve(st.env.cwd, AbsolutePath(st.basePath, relative)))
    ensures Read(st, t, relative) == Err(NotFound)
    ensures Metadata(st, t, relative, stamp) == Err(NotFound)
    ensures DirectorySize(st, t, relative) == Err(NotFound)
    ensures Delete(st, t, relative) == Outcome(t, Err(NotFound))
  {
  }

  /** A file cannot be written through a path ending in a separator: past the size check, the save fails. */
  lemma SaveThroughSeparatorFails(st: Settings, t: Tree, relative: string, data: seq<Byte>, stamp: Fresh)
    requires DirSyntax(relative) && |data| <= st.maxFileSize
    ensures Save(st, t, relative, data, stamp).result == Err(IoFailure)
  {
    var abs := AbsolutePath(st.basePath, relative);
    var c := CreateParent(st, t, abs);
    if c.Err? {
      assert c.error == IoFailure;
      assert Save(st, t, relative, data, stamp) == Outcome(t, Err(IoFailure));
    } else {
      assert WritePath(st, c.value, abs, data) == Err(IoFailure);
      assert Save(st, t, relative, data, stamp) == Outcome(c.value, Err(IoFailure));
    }
  }

  /** A copy whose destination ends in a separator fails, whatever the source. */
  lemma CopyThroughSeparatorFails(st: Settings, t: Tree, sourcePath: string, destPath: string, stamp: Fresh)
    requires DirSyntax(destPath)
    ensures CopyTo(st, t, sourcePath, destPath, stamp).result.Err?
  {
    var srcAbs := AbsolutePath(st.basePath, sourcePath);
    var dstAbs := AbsolutePath(st.basePath, destPath);
    if Found(st.env.cwd, t, srcAbs) {
      var c := CreateParent(st, t, dstAbs);
      if c.Err? {
        assert CopyTo(st, t, sourcePath, destPath, stamp) == Outcome(t, Err(c.error));
      } else {
        var from := Resolve(st.env.cwd, srcAbs);
        assert CopyToPath(st, c.value, from, dstAbs) == Err(IoFailure);
        assert CopyTo(st, t, sourcePath, destPath, stamp) == Outcome(c.value, Err(IoFailure));
      }
    }
  }

  /** A file cannot be moved to a name ending in a separator. */
  lemma MoveFileThroughSeparatorFails(st: Settings, t: Tree, oldPath: string, newPath: string)
    requires DirSyntax(newPath) && !DirSyntax(oldPath)
    requires IsFile(t, Resolve(st.env.cwd, AbsolutePath(st.basePath, oldPath)))
    ensures Move(st, t, oldPath, newPath).result == Err(IoFailure)
  {
    var newAbs := AbsolutePath(st.basePath, newPath);
    var from := Resolve(st.env.cwd, AbsolutePath(st.basePath, oldPath));
    assert Found(st.env.cwd, t, AbsolutePath(st.basePath, oldPath));
    var c := CreateParent(st, t, newAbs);
    if c.Ok? {
      assert IsFile(c.value, from);
      assert RenameToPath(st, c.value, from, newAbs) == Err(IoFailure);
      assert Move(st, t, oldPath, newPath) == Outcome(c.value, Err(IoFailure));
    }
  }

  /** A request path whose last component is a name resolves one level below its parent. */
  lemma SaveTarget(cwd: Key, base: PathBuf, relative: string)
    requires Components(relative) != [] && Components(relative)[|Components(relative)| - 1] != ".."
    ensures var abs := AbsolutePath(base, relative);
      var n := Components(relative)[|Components(relative)| - 1];
      && Parent(abs).Some? && IsName(n)
      && Resolve(cwd, abs) == Resolve(cwd, Parent(abs).value) + [n]
  {
    var abs := AbsolutePath(base, relative);
    var ns := Components(relative);
    var n := ns[|ns| - 1];
    assert IsPart(n);
    assert abs.parts[|abs.parts| - 1] == n;
    ResolveParent(cwd, abs);
  }

  /** A request path whose last component is `..` resolves to a prefix of where its parent does. */
  lemma SaveTargetDotDot(cwd: Key, base: PathBuf, relative: string)
    requires Components(relative) != [] && Components(relative)[|Components(relative)| - 1] == ".."
    ensures var abs := AbsolutePath(base, relative);
      && Parent(abs).Some?
      && var b := Resolve(cwd, Parent(abs).value);
      var k := Resolve(cwd, abs);
      |k| <= |b| && k == b[..|k|]
  {
    var abs := AbsolutePath(base, relative);
    var q := Parent(abs).value;
    ResolveAppendDotDot(cwd, q, abs);
  }

  /** A path whose last component is a name resolves one level below its parent. */
  lemma ResolveParent(cwd: Key, p: PathBuf)
    requires |p.parts| > 0 && IsName(p.parts[|p.parts| - 1])
    ensures Resolve(cwd, p) == Resolve(cwd, Parent(p).value) + [p.parts[|p.parts| - 1]]
  {
    var q := Parent(p).value;
    var n := p.parts[|p.parts| - 1];
    ResolveAppendNames(cwd, q, [n], p);
  }

  /** `create_dir_all` of the parent makes room for a file below it. */
  lemma CreateThenWrite(t: Tree, pk: Key, n: string, data: Content)
    requires !IsDir(t, pk + [n])
    requires forall i | 0 <= i < |pk + [n]| :: !IsFile(t, (pk + [n])[..i])
    ensures CreateDirAll(t, pk).Ok?
    ensures WriteFile(CreateDirAll(t, pk).value, pk + [n], data).Ok?
  {
    var k := pk + [n];
    assert forall i | 0 <= i <= |pk| :: pk[..i] == k[..i];
    var t1 := CreateDirAll(t, pk).value;
    assert k[..|k| - 1] == pk[..|pk|];
  }

  lemma SavePreservesValid(st: Settings, t: Tree, relative: string, data: seq<Byte>, stamp: Fresh)
    requires st.WellFormed() && Valid(t)
    ensures Valid(Save(st, t, relative, data, stamp).tree)
  {
    if |data| <= st.maxFileSize {
      var abs := AbsolutePath(st.basePath, relative);
      var c := CreateParent(st, t, abs);
      CreateParentValid(st, t, abs);
      if c.Err? {
        assert Save(st, t, relative, data, stamp).tree == t;
      } else {
        var w := WritePath(st, c.value, abs, data);
        WriteFileValid(c.value, Resolve(st.env.cwd, abs), data);
        assert Save(st, t, relative, data, stamp).tree == if w.Ok? then w.value else c.value;
      }
    }
  }

  /** Deleting removes exactly the entry's subtree (the entry alone for a file) and fails only for a missing entry. */
  lemma DeleteRemoves(t: Tree, k: Key)
    requires Valid(t)
    ensures var o := DeleteAt(t, k);
      && (k !in t ==> o == Outcome(t, Err(NotFound)))
      && (k in t && k != [] ==> o.result == Ok(()) && o.tree == Without(t, k))
      && (IsFile(t, k) ==> o.tree == RemoveFile(t, k))
  {
    if IsFile(t, k) {
      forall j | j in t && k <= j ensures j == k {
        FileIsLeaf(t, k, j);
      }
      assert Without(t, k) == RemoveFile(t, k);
    }
  }

  lemma DeletePreservesValid(t: Tree, k: Key)
    requires Valid(t)
    ensures Valid(DeleteAt(t, k).tree)
  {
    if k in t {
      if t[k].Dir? {
        if k != [] {
          WithoutValid(t, k);
        }
      } else {
        RemoveFileValid(t, k);
      }
    }
  }

  /** A new directory and all its missing ancestors exist after `create_directory`. */
  lemma MakeDirectoryCreates(st: Settings, t: Tree, relative: string, stamp: Fresh)
    requires MakeDirectory(st, t, relative, stamp).result.Ok?
    ensures var k := Resolve(st.env.cwd, AbsolutePath(st.basePath, relative));
      var o := MakeDirectory(st, t, relative, stamp);
      && (forall i | 0 <= i <= |k| :: IsDir(o.tree, k[..i]))
      && IsDir(o.tree, k)
      && o.result == Describe(st, o.tree, AbsolutePath(st.basePath, relative), stamp)
  {
    var abs := AbsolutePath(st.basePath, relative);
    var k := Resolve(st.env.cwd, abs);
    assert MakeDirectory(st, t, relative, stamp) == Outcome(CreateDirAll(t, k).value, Describe(st, CreateDirAll(t, k).value, abs, stamp));
  }

  /** The record `create_directory` returns is a directory's: size 0 and no checksum. */
  lemma MakeDirectoryRecord(st: Settings, t: Tree, relative: string, stamp: Fresh)
    requires MakeDirectory(st, t, relative, stamp).result.Ok?
    ensures var m := MakeDirectory(st, t, relative, stamp).result.value;
      m.isDirectory && m.size == 0 && m.checksum == "" && m.mimeType == DIRECTORY_MIME
  {
    var abs := AbsolutePath(st.basePath, relative);
    var k := Resolve(st.env.cwd, abs);
    var o := MakeDirectory(st, t, relative, stamp);
    MakeDirectoryCreates(st, t, relative, stamp);
    DescribeDirectory(st, o.tree, abs, stamp);
  }

  lemma MakeDirectoryPreservesValid(st: Settings, t: Tree, relative: string, stamp: Fresh)
    requires st.WellFormed() && Valid(t)
    ensures Valid(MakeDirectory(st, t, relative, stamp).tree)
  {
    CreateDirAllValid(t, Resolve(st.env.cwd, AbsolutePath(st.basePath, relative)));
  }

  /** A missing source fails the move and leaves the tree alone. */
  lemma MoveMissingSource(st: Settings, t: Tree, oldPath: string, newPath: string)
    requires Resolve(st.env.cwd, AbsolutePath(st.basePath, oldPath)) !in t
    ensures Move(st, t, oldPath, newPath) == Outcome(t, Err(NotFound))
  {
  }

  /** After a successful move the destination holds what the source held, and the source is gone. */
  lemma MoveRelocates(st: Settings, t: Tree, oldPath: string, newPath: string)
    requires st.WellFormed() && Valid(t)
    requires Move(st, t, oldPath, newPath).result.Ok?
    ensures var from := Resolve(st.env.cwd, AbsolutePath(st.basePath, oldPath));
      var to := Resolve(st.env.cwd, AbsolutePath(st.basePath, newPath));
      var u := Move(st, t, oldPath, newPath).tree;
      from != to ==>
        && from !in u
        && (forall s :: from + s in t ==> to + s in u && u[to + s] == t[from + s])
        && (forall j | j in t && !(from <= j) && !(to <= j) :: j in u && u[j] == t[j])
  {
    var from := Resolve(st.env.cwd, AbsolutePath(st.basePath, oldPath));
    var newAbs := AbsolutePath(st.basePath, newPath);
    var to := Resolve(st.env.cwd, newAbs);
    var t1 := CreateParent(st, t, newAbs).value;
    assert Move(st, t, oldPath, newPath) == Outcome(RenameToPath(st, t1, from, newAbs).value, Ok(()));
    CreateParentValid(st, t, newAbs);
    if from != to {
      RenameAfterCreate(t, t1, from, to);
    }
  }

  /** A rename in a tree that only gained directories moves what the original tree held. */
  lemma RenameAfterCreate(t: Tree, t1: Tree, from: Key, to: Key)
    requires Valid(t1) && forall j | j in t :: j in t1 && t1[j] == t[j]
    requires Rename(t1, from, to).Ok? && from != to
    ensures var u := Rename(t1, from, to).value;
      && from !in u
      && (forall s :: from + s in t ==> to + s in u && u[to + s] == t[from + s])
      && (forall j | j in t && !(from <= j) && !(to <= j) :: j in u && u[j] == t[j])
  {
    RenameMoves(t1, from, to);
  }

  lemma MovePreservesValid(st: Settings, t: Tree, oldPath: string, newPath: string)
    requires st.WellFormed() && Valid(t)
    ensures Valid(Move(st, t, oldPath, newPath).tree)
  {
    var from := Resolve(st.env.cwd, AbsolutePath(st.basePath, oldPath));
    var newAbs := AbsolutePath(st.basePath, newPath);
    var to := Resolve(st.env.cwd, newAbs);
    if Found(st.env.cwd, t, AbsolutePath(st.basePath, oldPath)) {
      CreateParentValid(st, t, newAbs);
      if CreateParent(st, t, newAbs).Ok? {
        var t1 := CreateParent(st, t, newAbs).value;
        var renamed := RenameToPath(st, t1, from, newAbs);
        if renamed.Ok? && from != to {
          assert renamed == Rename(t1, from, to);
          MoveSubtreeValid(t1, from, to);
        }
      }
    }
  }

  /** A missing source fails the copy and leaves the tree alone. */
  lemma CopyMissingSource(st: Settings, t: Tree, sourcePath: string, destPath: string, stamp: Fresh)
    requires Resolve(st.env.cwd, AbsolutePath(st.basePath, sourcePath)) !in t
    ensures CopyTo(st, t, sourcePath, destPath, stamp) == Outcome(t, Err(NotFound))
  {
  }

  /** After a successful copy the destination holds the source's bytes and the source is kept. */
  lemma CopyDuplicates(st: Settings, t: Tree, sourcePath: string, destPath: string, stamp: Fresh)
    requires st.WellFormed() && Valid(t)
    requires CopyTo(st, t, sourcePath, destPath, stamp).result.Ok?
    ensures var from := Resolve(st.env.cwd, AbsolutePath(st.basePath, sourcePath));
      var to := Resolve(st.env.cwd, AbsolutePath(st.basePath, destPath));
      var o := CopyTo(st, t, sourcePath, destPath, stamp);
      && IsFile(t, from) && IsFile(o.tree, to) && from in o.tree
      && (from != to ==> o.tree[to] == t[from] && o.tree[from] == t[from])
      && (from == to ==> o.tree[to] == File([]))
      && o.result.value.size == |o.tree[to].content|
      && (forall j | j in t && j != to :: j in o.tree && o.tree[j] == t[j])
  {
    var from := Resolve(st.env.cwd, AbsolutePath(st.basePath, sourcePath));
    var dstAbs := AbsolutePath(st.basePath, destPath);
    var to := Resolve(st.env.cwd, dstAbs);
    var t1 := CreateParent(st, t, dstAbs).value;
    var t2 := CopyToPath(st, t1, from, dstAbs).value;
    assert CopyTo(st, t, sourcePath, destPath, stamp) == Outcome(t2, Describe(st, t2, dstAbs, stamp));
    CreateParentValid(st, t, dstAbs);
    CopyAfterCreate(t, t1, from, to);
  }

  /** A copy in a tree that only gained directories duplicates what the original tree held. */
  lemma CopyAfterCreate(t: Tree, t1: Tree, from: Key, to: Key)
    requires forall j | j in t :: j in t1 && t1[j] == t[j]
    requires from in t && Copy(t1, from, to).Ok?
    ensures var u := Copy(t1, from, to).value;
      && IsFile(t, from) && IsFile(u, to) && from in u
      && (from != to ==> u[to] == t[from] && u[from] == t[from])
      && (from == to ==> u[to] == File([]))
      && (forall j | j in t && j != to :: j in u && u[j] == t[j])
  {
  }

  lemma CopyPreservesValid(st: Settings, t: Tree, sourcePath: string, destPath: string, stamp: Fresh)
    requires st.WellFormed() && Valid(t)
    ensures Valid(CopyTo(st, t, sourcePath, destPath, stamp).tree)
  {
    var from := Resolve(st.env.cwd, AbsolutePath(st.basePath, sourcePath));
    var dstAbs := AbsolutePath(st.basePath, destPath);
    if Found(st.env.cwd, t, AbsolutePath(st.basePath, sourcePath)) {
      CreateParentValid(st, t, dstAbs);
      if CreateParent(st, t, dstAbs).Ok? {
        var t1 := CreateParent(st, t, dstAbs).value;
        var to := Resolve(st.env.cwd, dstAbs);
        if CopyToPath(st, t1, from, dstAbs).Ok? {
          assert Copy(t1, from, to) == WriteFile(t1, to, if from == to then [] else t1[from].content);
          WriteFileValid(t1, to, if from == to then [] else t1[from].content);
        }
      }
    }
  }

  // ---------------------------------------------------------------------------
  // The service

  class FileSystemService {
    const settings: Settings
    var tree: Tree

    ghost predicate Valid()
      reads this
    {
      settings.WellFormed() && Disk.Valid(tree)
    }

    constructor (settings: Settings, tree: Tree)
      requires settings.WellFormed() && Disk.Valid(tree)
      ensures Valid() && this.settings == settings && this.tree == tree
    {
      this.settings := settings;
      this.tree := tree;
    }

    /**
     * `FileSystemService::new` (server/filesystem.rs:23-35): the base directory
     * is created when the base path finds nothing.
     */
    static method New(basePath: PathBuf, maxFileSize: u64, env: Env, disk: Tree) returns (r: Result<FileSystemService, FsError>)
      requires basePath.WellFormed() && IsKey(env.cwd) && Disk.Valid(disk)
      ensures var k := Resolve(env.cwd, basePath);
        && (Found(env.cwd, disk, basePath) ==> r.Ok? && r.value.tree == disk)
        && (!Found(env.cwd, disk, basePath) ==> (r.Ok? <==> CreateDirAll(disk, k).Ok?))
        && (!Found(env.cwd, disk, basePath) && r.Ok? ==> r.value.tree == CreateDirAll(disk, k).value && IsDir(r.value.tree, k))
      ensures r.Ok? ==> fresh(r.value) && r.value.Valid() && r.value.settings == Settings(basePath, maxFileSize, env)
    {
      var k := Resolve(env.cwd, basePath);
      var tree := disk;
      if !Found(env.cwd, disk, basePath) {
        var created := CreateDirAll(disk, k);
        if created.Err? {
          return Err(created.error);
        }
        CreateDirAllValid(disk, k);
        tree := created.value;
      }
      var service := new FileSystemService(Settings(basePath, maxFileSize, env), tree);
      return Ok(service);
    }

    /** `get_absolute_path`. */
    function GetAbsolutePath(relativePath: string): (r: PathBuf)
      ensures r.rooted == settings.basePath.rooted && r.parts == settings.basePath.parts + Components(relativePath)
      ensures r.trailing == DirSyntax(relativePath)
    {
      AbsolutePath(settings.basePath, relativePath)
    }

    /** `get_relative_path`. */
    function GetRelativePath(absolutePath: PathBuf): (r: Result<string, FsError>)
      ensures r.Ok? <==> absolutePath.rooted == settings.basePath.rooted && settings.basePath.parts <= absolutePath.parts
    {
      RelativePath(settings.basePath, absolutePath)
    }

    /**
     * `calculate_checksum` (server/filesystem.rs:214-228): the file is read in
     * chunks of at most `BUFFER_SIZE` bytes until a read returns nothing, each
     * chunk fed to the hasher; the chunks fed make up the whole file.
     */
    method CalculateChecksum(path: PathBuf) returns (r: Result<string, FsError>, ghost chunks: seq<seq<Byte>>)
      ensures var k := Resolve(settings.env.cwd, path);
        && (!IsFile(tree, k) ==> r == Err(IoFailure))
        && (IsFile(tree, k) ==> r == Ok(Checksum(settings.env, tree[k].content)))
      ensures IsFile(tree, Resolve(settings.env.cwd, path)) ==>
        && Flatten(chunks) == tree[Resolve(settings.env.cwd, path)].content
        && forall i | 0 <= i < |chunks| :: 0 < |chunks[i]| <= BUFFER_SIZE
    {
      chunks := [];
      var k := Resolve(settings.env.cwd, path);
      if !IsFile(tree, k) {
        return Err(IoFailure), chunks;
      }
      var content := tree[k].content;
      var hashed: seq<Byte> := [];
      var pos := 0;
      while pos < |content|
        invariant 0 <= pos <= |content|
        invariant hashed == content[..pos] == Flatten(chunks)
        invariant forall i | 0 <= i < |chunks| :: 0 < |chunks[i]| <= BUFFER_SIZE
        decreases |content| - pos
      {
        var n :| 0 < n <= BUFFER_SIZE && pos + n <= |content|;
        var chunk := content[pos..pos + n];
        FlattenSnoc(chunks, chunk);
        hashed := hashed + chunk;
        chunks := chunks + [chunk];
        assert content[..pos + n] == content[..pos] + chunk;
        pos := pos + n;
      }
      assert content[..pos] == content;
      r := Ok(HexLower(settings.env.sha256(hashed)));
    }

    /** `generate_file_metadata`, with the checksum computed by `CalculateChecksum`. */
    method GenerateFileMetadata(path: PathBuf, stamp: Fresh) returns (r: Result<FileMetadata, FsError>)
      ensures r == Describe(settings, tree, path, stamp)
    {
      var k := Resolve(settings.env.cwd, path);
      if !Found(settings.env.cwd, tree, path) {
        return Err(NotFound);
      }
      var relative := RelativePath(settings.basePath, path);
      if relative.Err? {
        return Err(relative.error);
      }
      var isDirectory := tree[k].Dir?;
      var checksum := "";
      if !isDirectory {
        var sum, _ := CalculateChecksum(path);
        checksum := sum.value;
      }
      r := Ok(FileMetadata(
        id := stamp.id,
        name := NameOf(path),
        path := relative.value,
        size := if isDirectory then 0 else |tree[k].content|,
        mimeType := if isDirectory then DIRECTORY_MIME else MimeType(settings.env, path),
        checksum := checksum,
        createdAt := stamp.createdAt,
        modifiedAt := stamp.modifiedAt,
        ownerId := stamp.ownerId,
        isDirectory := isDirectory,
        parentId := None,
        permissions := ALL_PERMISSIONS));
    }

    /** `create_dir_all` of the parent of `p`, on the tree. */
    method CreateParentDirectories(p: PathBuf) returns (r: Result<(), FsError>)
      requires Valid() && p.WellFormed()
      modifies this
      ensures Valid()
      ensures var c := CreateParent(settings, old(tree), p);
        && (c.Err? ==> r == Err(c.error) && tree == old(tree))
        && (c.Ok? ==> r == Ok(()) && tree == c.value)
    {
      CreateParentValid(settings, tree, p);
      var parent := Parent(p);
      if parent.Some? {
        var created := CreateDirAll(tree, Resolve(settings.env.cwd, parent.value));
        if created.Err? {
          return Err(created.error);
        }
        tree := created.value;
      }
      r := Ok(());
    }

    /** `save_file`. */
    method SaveFile(relativePath: string, data: seq<Byte>, stamp: Fresh) returns (r: Result<FileMetadata, FsError>)
      requires Valid()
      modifies this
      ensures Valid()
      ensures Outcome(tree, r) == Save(settings, old(tree), relativePath, data, stamp)
    {
      ghost var expected := Save(settings, tree, relativePath, data, stamp);
      if |data| > settings.maxFileSize {
        return Err(SizeExceeded);
      }
      var absolute := GetAbsolutePath(relativePath);
      var k := Resolve(settings.env.cwd, absolute);
      ghost var prepared := CreateParent(settings, tree, absolute);
      assert prepared.Err? ==> expected == Outcome(tree, Err(prepared.error));
      var created := CreateParentDirectories(absolute);
      if created.Err? {
        return Err(created.error);
      }
      assert prepared == Ok(tree);
      var written := WritePath(settings, tree, absolute, data);
      assert written.Err? ==> expected == Outcome(tree, Err(written.error));
      if written.Err? {
        return Err(written.error);
      }
      assert expected == Outcome(written.value, Describe(settings, written.value, absolute, stamp));
      WriteFileValid(tree, k, data);
      tree := written.value;
      r := GenerateFileMetadata(absolute, stamp);
    }

    /** `read_file`. */
    method ReadFile(relativePath: string) returns (r: Result<Content, FsError>)
      ensures r == Read(settings, tree, relativePath)
    {
      var absolute := GetAbsolutePath(relativePath);
      var k := Resolve(settings.env.cwd, absolute);
      if !Found(settings.env.cwd, tree, absolute) {
        return Err(NotFound);
      }
      if tree[k].Dir? {
        return Err(IoFailure);
      }
      r := Ok(tree[k].content);
    }

    /** `delete_file`. */
    method DeleteFile(relativePath: string) returns (r: Result<(), FsError>)
      requires Valid()
      modifies this
      ensures Valid()
      ensures Outcome(tree, r) == Delete(settings, old(tree), relativePath)
    {
      var absolute := GetAbsolutePath(relativePath);
      var k := Resolve(settings.env.cwd, absolute);
      DeletePreservesValid(tree, k);
      if !Found(settings.env.cwd, tree, absolute) {
        return Err(NotFound);
      }
      if tree[k].Dir? {
        var o := RemoveAll(tree, k);
        tree := o.tree;
        r := o.result;
      } else {
        tree := RemoveFile(tree, k);
        r := Ok(());
      }
    }

    /** `create_directory`. */
    method CreateDirectory(relativePath: string, stamp: Fresh) returns (r: Result<FileMetadata, FsError>)
      requires Valid()
      modifies this
      ensures Valid()
      ensures Outcome(tree, r) == MakeDirectory(settings, old(tree), relativePath, stamp)
    {
      MakeDirectoryPreservesValid(settings, tree, relativePath, stamp);
      var absolute := GetAbsolutePath(relativePath);
      var created := CreateDirAll(tree, Resolve(settings.env.cwd, absolute));
      if created.Err? {
        return Err(created.error);
      }
      tree := created.value;
      r := GenerateFileMetadata(absolute, stamp);
    }

    /** `move_file`. */
    method MoveFile(oldPath: string, newPath: string) returns (r: Result<(), FsError>)
      requires Valid()
      modifies this
      ensures Valid()
      ensures Outcome(tree, r) == Move(settings, old(tree), oldPath, newPath)
    {
      MovePreservesValid(settings, tree, oldPath, newPath);
      var oldAbsolute := GetAbsolutePath(oldPath);
      var newAbsolute := GetAbsolutePath(newPath);
      var from := Resolve(settings.env.cwd, oldAbsolute);
      if !Found(settings.env.cwd, tree, oldAbsolute) {
        return Err(NotFound);
      }
      var created := CreateParentDirectories(newAbsolute);
      if created.Err? {
        return Err(created.error);
      }
      var renamed := RenameToPath(settings, tree, from, newAbsolute);
      if renamed.Err? {
        return Err(renamed.error);
      }
      tree := renamed.value;
      r := Ok(());
    }

    /** `copy_file`. */
    method CopyFile(sourcePath: string, destPath: string, stamp: Fresh) returns (r: Result<FileMetadata, FsError>)
      requires Valid()
      modifies this
      ensures Valid()
      ensures Outcome(tree, r) == CopyTo(settings, old(tree), sourcePath, destPath, stamp)
    {
      CopyPreservesValid(settings, tree, sourcePath, destPath, stamp);
      var sourceAbsolute := GetAbsolutePath(sourcePath);
      var destAbsolute := GetAbsolutePath(destPath);
      var from := Resolve(settings.env.cwd, sourceAbsolute);
      if !Found(settings.env.cwd, tree, sourceAbsolute) {
        return Err(NotFound);
      }
      var created := CreateParentDirectories(destAbsolute);
      if created.Err? {
        return Err(created.error);
      }
      var copied := CopyToPath(settings, tree, from, destAbsolute);
      if copied.Err? {
        return Err(copied.error);
      }
      tree := copied.value;
      r := GenerateFileMetadata(destAbsolute, stamp);
    }

    /** `get_file_metadata`. */
    method GetFileMetadata(relativePath: string, stamp: Fresh) returns (r: Result<FileMetadata, FsError>)
      ensures r == Metadata(settings, tree, relativePath, stamp)
    {
      var absolute := GetAbsolutePath(relativePath);
      if !Found(settings.env.cwd, tree, absolute) {
        return Err(NotFound);
      }
      r := GenerateFileMetadata(absolute, stamp);
    }

    /**
     * `list_directory` (server/filesystem.rs:120-145): one record per entry,
     * in whatever order the directory yields them, then sorted.
     */
    method ListDirectory(relativePath: string, stamps: Key -> Fresh) returns (r: Result<seq<FileMetadata>, FsError>)
      requires Valid()
      ensures var dir := AbsolutePath(settings.basePath, relativePath);
        && (!IsDir(tree, Resolve(settings.env.cwd, dir)) <==> r.Err?)
        && (r.Err? ==> r.error == NotFound)
        && (r.Ok? ==> IsListing(r.value, Entries(settings, tree, dir, stamps)))
    {
      var absolute := GetAbsolutePath(relativePath);
      var k := Resolve(settings.env.cwd, absolute);
      if !IsDir(tree, k) {
        return Err(NotFound);
      }
      var order := ReadDir(k);
      var entries: seq<FileMetadata> := [];
      for i := 0 to |order|
        invariant |entries| == i
        invariant DescribedPrefix(settings, tree, absolute, k, stamps, order, entries)
      {
        var c := order[i];
        ChildDescribed(settings, tree, absolute, c);
        // Every child of an existing directory is described, so `?` never propagates here.
        var m := GenerateFileMetadata(ChildPath(absolute, c[|k|]), stamps(c));
        DescribedPrefixSnoc(settings, tree, absolute, k, stamps, order, entries, m.value);
        entries := entries + [m.value];
      }
      assert Collected(settings, tree, absolute, k, stamps, entries, order);
      SortedEntriesListing(settings, tree, absolute, k, stamps, entries, order);
      r := Ok(SortByKey(entries, ListKey));
    }

    /** `read_dir`: each entry directly inside `k` once, in an order the platform chooses. */
    method ReadDir(k: Key) returns (order: seq<Key>)
      ensures forall c :: c in order <==> c in Children(tree, k)
      ensures forall i | 0 <= i < |order| :: order[i] in Children(tree, k)
      ensures forall i, j | 0 <= i < j < |order| :: order[i] != order[j]
    {
      var remaining := Children(tree, k);
      order := [];
      while remaining != {}
        invariant forall c :: c in Children(tree, k) <==> c in order || c in remaining
        invariant forall c :: c in order ==> c !in remaining
        invariant forall i, j | 0 <= i < j < |order| :: order[i] != order[j]
        decreases remaining
      {
        var c :| c in remaining;
        order := order + [c];
        remaining := remaining - {c};
      }
    }

    /** `get_directory_size`: walks the subtree adding up the lengths of regular files. */
    method GetDirectorySize(relativePath: string) returns (r: Result<u64, FsError>)
      ensures r == DirectorySize(settings, tree, relativePath)
    {
      var absolute := GetAbsolutePath(relativePath);
      var k := Resolve(settings.env.cwd, absolute);
      if !Found(settings.env.cwd, tree, absolute) {
        return Err(NotFound);
      }
      var total := WalkSize(k);
      r := Ok(total);
    }

    /** The `WalkDir` loop: every entry of the subtree visited once, file lengths added with wrap-around. */
    method WalkSize(k: Key) returns (total: u64)
      ensures total == SubtreeBytes(tree, k) % U64_LIMIT
    {
      var remaining := Subtree(tree, k);
      total := 0;
      ghost var walked: set<Key> := {};
      while remaining != {}
        invariant remaining <= Subtree(tree, k) && walked == Subtree(tree, k) - remaining
        invariant total == SumBytes(tree, walked) % U64_LIMIT
        decreases remaining
      {
        var e :| e in remaining;
        SumBytesRemove(tree, walked + {e}, e);
        assert walked + {e} - {e} == walked;
        AddMod(SumBytes(tree, walked), NodeBytes(tree[e]));
        if tree[e].File? {
          total := (total + |tree[e].content|) % U64_LIMIT;
        }
        remaining := remaining - {e};
        walked := walked + {e};
      }
      assert walked == Subtree(tree, k);
    }
  }

  /** Wrapping after every addition is wrapping once at the end. */
  lemma AddMod(a: nat, b: nat)
    ensures (a % U64_LIMIT + b) % U64_LIMIT == (a + b) % U64_LIMIT
  {
  }

  /** The bytes fed to the hasher, one chunk after another. */
  function Flatten(chunks: seq<seq<Byte>>): (r: seq<Byte>)
  {
    if chunks == [] then [] else Flatten(chunks[..|chunks| - 1]) + chunks[|chunks| - 1]
  }

  lemma FlattenSnoc(chunks: seq<seq<Byte>>, c: seq<Byte>)
    ensures Flatten(chunks + [c]) == Flatten(chunks) + c
  {
    assert (chunks + [c])[..|chunks|] == chunks;
  }
}
