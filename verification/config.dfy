/**
 * `ServerConfig` (server/config.rs): the settings records, the built-in
 * defaults and the validation run before the server starts.
 */
module Config {
  import opened Wrappers
  import opened Types

  datatype ServerSettings = ServerSettings(
    host: string,
    port: u16,
    maxConnections: u64,
    requestTimeoutSeconds: u64,
    maxRequestSize: u64)

  datatype DatabaseSettings = DatabaseSettings(url: string, maxConnections: u32, connectionTimeoutSeconds: u64)

  datatype FilesystemSettings = FilesystemSettings(
    basePath: string,
    maxFileSizeMb: u64,
    allowedExtensions: seq<string>,
    tempDirectory: string)

  datatype AuthSettings = AuthSettings(jwtSecret: string, tokenExpiryHours: i64, bcryptCost: u32)

  datatype MyCloudSettings = MyCloudSettings(
    apiEndpoint: string,
    adminUsername: string,
    adminPassword: string,
    verifySsl: bool,
    syncIntervalSeconds: u64)

  datatype ServerConfig = ServerConfig(
    server: ServerSettings,
    database: DatabaseSettings,
    filesystem: FilesystemSettings,
    auth: AuthSettings,
    mycloud: MyCloudSettings)

  /** The number of bytes of the UTF-8 encoding of `c`. */
  function Utf8Width(c: char): (n: nat)
    ensures 1 <= n <= 4
    ensures (c as int) < 0x80 <==> n == 1
  {
    if (c as int) < 0x80 then 1
    else if (c as int) < 0x800 then 2
    else if (c as int) < 0x1_0000 then 3
    else 4
  }

  /** `str::len`: the length of the UTF-8 encoding, in bytes. */
  function Utf8Length(s: string): (n: nat)
  {
    if s == [] then 0 else Utf8Width(s[0]) + Utf8Length(s[1..])
  }

  /** A string takes at least one and at most four bytes per character. */
  lemma {:induction false} Utf8LengthBounds(s: string)
    ensures |s| <= Utf8Length(s) <= 4 * |s|
  {
    if s != [] {
      Utf8LengthBounds(s[1..]);
    }
  }

  /** A string takes one byte per character exactly when it is ASCII. */
  lemma {:induction false} Utf8LengthAscii(s: string)
    ensures (forall i | 0 <= i < |s| :: (s[i] as int) < 0x80) <==> Utf8Length(s) == |s|
  {
    if s != [] {
      Utf8LengthAscii(s[1..]);
      Utf8LengthBounds(s[1..]);
      assert forall i | 1 <= i < |s| :: s[i] == s[1..][i - 1];
      if Utf8Length(s) == |s| {
        assert Utf8Width(s[0]) == 1;
      }
    }
  }

  /** `Path::is_absolute` on Unix: the path starts at the root. */
  predicate IsAbsolute(path: string) {
    |path| > 0 && path[0] == '/'
  }

  const MIN_SECRET_BYTES: nat := 32

  const DEFAULT_EXTENSIONS: seq<string> := [
    "txt", "pdf", "doc", "docx", "xls", "xlsx", "ppt", "pptx",
    "jpg", "jpeg", "png", "gif", "bmp", "svg", "webp",
    "mp4", "avi", "mkv", "mov", "wmv", "flv", "webm",
    "mp3", "wav", "flac", "aac", "ogg", "wma",
    "zip", "rar", "7z", "tar", "gz", "bz2"]

  const DEFAULT_JWT_SECRET: string := "your-super-secret-jwt-key-change-this-in-production"

  /** `ServerConfig::default`. */
  function Default(): (c: ServerConfig)
  {
    ServerConfig(
      ServerSettings("0.0.0.0", 8080, 1000, 30, 100 * 1024 * 1024),
      DatabaseSettings("sqlite:./synker.db", 10, 30),
      FilesystemSettings("./storage", 1024, DEFAULT_EXTENSIONS, "./temp"),
      AuthSettings(DEFAULT_JWT_SECRET, 24, 12),
      MyCloudSettings("http://192.168.1.100", "admin", "", false, 300))
  }

  predicate PortSet(c: ServerConfig) { c.server.port != 0 }
  predicate SecretLongEnough(c: ServerConfig) { Utf8Length(c.auth.jwtSecret) >= MIN_SECRET_BYTES }
  predicate BaseAbsolute(c: ServerConfig) { IsAbsolute(c.filesystem.basePath) }
  predicate AdminNamed(c: ServerConfig) { c.mycloud.adminUsername != "" }
  predicate AdminPassword(c: ServerConfig) { c.mycloud.adminPassword != "" }

  /** `ServerConfig::validate`: the first check that fails is reported. */
  function Validate(c: ServerConfig): (r: Result<(), string>)
  {
    if !PortSet(c) then Err("Server port cannot be 0")
    else if !SecretLongEnough(c) then Err("JWT secret must be at least 32 characters long")
    else if !BaseAbsolute(c) then Err("Filesystem base path must be absolute")
    else if !AdminNamed(c) then Err("MyCloud admin username cannot be empty")
    else if !AdminPassword(c) then Err("MyCloud admin password cannot be empty")
    else Ok(())
  }

  /** A configuration is accepted exactly when every check passes. */
  lemma ValidateAccepts(c: ServerConfig)
    ensures Validate(c).Ok? <==>
      PortSet(c) && SecretLongEnough(c) && BaseAbsolute(c) && AdminNamed(c) && AdminPassword(c)
  {
  }

  /** The checks run in order: each is reported only when the ones before it pass. */
  lemma ValidateOrder(c: ServerConfig)
    ensures !PortSet(c) ==> Validate(c) == Err("Server port cannot be 0")
    ensures (PortSet(c) && !SecretLongEnough(c)) ==>
      Validate(c) == Err("JWT secret must be at least 32 characters long")
    ensures (PortSet(c) && SecretLongEnough(c) && !BaseAbsolute(c)) ==>
      Validate(c) == Err("Filesystem base path must be absolute")
    ensures (PortSet(c) && SecretLongEnough(c) && BaseAbsolute(c) && !AdminNamed(c)) ==>
      Validate(c) == Err("MyCloud admin username cannot be empty")
    ensures (PortSet(c) && SecretLongEnough(c) && BaseAbsolute(c) && AdminNamed(c) && !AdminPassword(c)) ==>
      Validate(c) == Err("MyCloud admin password cannot be empty")
  {
  }

  /**
   * The secret is measured in bytes: 32 characters always suffice, while
   * fewer than 8 never do, whatever the characters.
   */
  lemma SecretLength(c: ServerConfig)
    requires c.server.port != 0
    ensures |c.auth.jwtSecret| < 8 ==> Validate(c) == Err("JWT secret must be at least 32 characters long")
    ensures |c.auth.jwtSecret| >= 32 ==> Validate(c) != Err("JWT secret must be at least 32 characters long")
  {
    Utf8LengthBounds(c.auth.jwtSecret);
  }

  /** The built-in values of the settings the server sizes itself by. */
  lemma DefaultValues()
    ensures var c := Default();
      && c.server.port == 8080
      && c.server.maxRequestSize == 104857600
      && c.filesystem.maxFileSizeMb == 1024
      && |c.filesystem.allowedExtensions| == 34
      && c.mycloud.syncIntervalSeconds == 300
      && c.mycloud.adminPassword == ""
  {
  }

  lemma DefaultSecretLongEnough()
    ensures Utf8Length(DEFAULT_JWT_SECRET) >= MIN_SECRET_BYTES
  {
    assert |DEFAULT_JWT_SECRET| == 51;
    Utf8LengthBounds(DEFAULT_JWT_SECRET);
  }

  /** The defaults do not validate: the storage directory is relative, and that check comes before the empty password. */
  lemma DefaultRejected()
    ensures Validate(Default()) == Err("Filesystem base path must be absolute")
  {
    var c := Default();
    DefaultSecretLongEnough();
    assert PortSet(c) && SecretLongEnough(c) && !BaseAbsolute(c);
    ValidateOrder(c);
  }
}
