/** The records and enums of server/types.rs, plus the machine integer widths they use. */
module Types {
  import opened Wrappers

  const U64_LIMIT: int := 0x1_0000_0000_0000_0000
  const U32_LIMIT: int := 0x1_0000_0000
  const I64_MIN: int := -0x8000_0000_0000_0000
  const I64_LIMIT: int := 0x8000_0000_0000_0000
  const I32_MIN: int := -0x8000_0000
  const I32_LIMIT: int := 0x8000_0000

  type u64 = x: int | 0 <= x < U64_LIMIT
  type u32 = x: int | 0 <= x < U32_LIMIT
  type i64 = x: int | I64_MIN <= x < I64_LIMIT
  type i32 = x: int | I32_MIN <= x < I32_LIMIT
  type u16 = x: int | 0 <= x < 0x1_0000
  type Byte = x: int | 0 <= x < 256

  /** A non-negative count reduced to `u64`, as wrapping addition leaves it. */
  function WrapU64(n: nat): u64
  {
    n % U64_LIMIT
  }

  /** A UUID, treated as an opaque identifier. */
  type Uuid = nat

  /** A `DateTime<Utc>`, as whole seconds since the epoch. */
  type Timestamp = int

  const SECONDS_PER_HOUR: int := 3600

  datatype FilePermissions = FilePermissions(read: bool, write: bool, delete: bool, share: bool)

  datatype FileMetadata = FileMetadata(
    id: Uuid,
    name: string,
    path: string,
    size: u64,
    mimeType: string,
    checksum: string,
    createdAt: Timestamp,
    modifiedAt: Timestamp,
    ownerId: Uuid,
    isDirectory: bool,
    parentId: Option<Uuid>,
    permissions: FilePermissions)

  datatype User = User(
    id: Uuid,
    username: string,
    email: Option<string>,
    passwordHash: string,
    createdAt: Timestamp,
    lastLogin: Option<Timestamp>,
    isActive: bool,
    permissions: seq<string>)

  datatype SyncSession = SyncSession(
    id: Uuid,
    userId: Uuid,
    deviceId: string,
    deviceName: string,
    lastSync: Timestamp,
    syncFolders: seq<string>,
    isActive: bool)

  datatype ShareLink = ShareLink(
    id: Uuid,
    fileId: Uuid,
    createdBy: Uuid,
    shareToken: string,
    expiresAt: Option<Timestamp>,
    passwordProtected: bool,
    downloadCount: u32,
    maxDownloads: Option<u32>,
    createdAt: Timestamp)

  datatype ChangeType = Created | Modified | Deleted | Moved

  datatype FileChange = FileChange(
    fileId: Uuid,
    changeType: ChangeType,
    path: string,
    metadata: Option<FileMetadata>,
    timestamp: Timestamp)

  datatype UploadResponse = UploadResponse(fileId: Uuid, path: string, size: u64, checksum: string)

  datatype SyncResponse = SyncResponse(changes: seq<FileChange>, syncToken: string)

  /** The JSON envelope of every handler reply. */
  datatype ApiResponse<T> = ApiResponse(success: bool, data: Option<T>, error: Option<string>, timestamp: Timestamp)
  {
    /** Exactly one of `data` and `error` is present, and `data` goes with success. */
    predicate WellFormed() {
      (data.Some? <==> success) && (error.Some? <==> !success)
    }
  }

  /** `ApiResponse::success`: carries the payload, no error. */
  function Success<T>(d: T, now: Timestamp): (r: ApiResponse<T>)
    ensures r.success && r.data == Some(d) && r.error == None && r.timestamp == now
    ensures r.WellFormed()
  {
    ApiResponse(true, Some(d), None, now)
  }

  /** `ApiResponse::error`: carries the message, no payload. */
  function Error<T>(message: string, now: Timestamp): (r: ApiResponse<T>)
    ensures !r.success && r.data == None && r.error == Some(message) && r.timestamp == now
    ensures r.WellFormed()
  {
    ApiResponse(false, None, Some(message), now)
  }
}
