/** The shared vocabulary of the on-disk and in-memory records: user roles, result codes,
    entry kinds, permission bits, and the truncating constructors of the fixed-width records. */
module OdfTypes {
  import opened Base

  // ---------------------------------------------------------------------------
  // Enumerations
  // ---------------------------------------------------------------------------

  /** `UserRole` is stored as a 32-bit value; only these two are named. */
  const ROLE_NORMAL: u32 := 0
  const ROLE_ADMIN: u32 := 1

  /** `OFSErrorCodes`: every operation of the engine answers with one of these. */
  const SUCCESS: int := 0
  const ERROR_NOT_FOUND: int := -1
  const ERROR_PERMISSION_DENIED: int := -2
  const ERROR_IO_ERROR: int := -3
  const ERROR_INVALID_PATH: int := -4
  const ERROR_FILE_EXISTS: int := -5
  const ERROR_NO_SPACE: int := -6
  const ERROR_INVALID_CONFIG: int := -7
  const ERROR_NOT_IMPLEMENTED: int := -8
  const ERROR_INVALID_SESSION: int := -9
  const ERROR_DIRECTORY_NOT_EMPTY: int := -10
  const ERROR_INVALID_OPERATION: int := -11

  /** The twelve result codes in declaration order. */
  function ErrorCodes(): (codes: seq<int>)
    ensures |codes| == 12
    ensures forall i :: 0 <= i < |codes| ==> codes[i] == -i
    ensures forall i, j :: 0 <= i < j < |codes| ==> codes[i] != codes[j]
  {
    [SUCCESS, ERROR_NOT_FOUND, ERROR_PERMISSION_DENIED, ERROR_IO_ERROR,
     ERROR_INVALID_PATH, ERROR_FILE_EXISTS, ERROR_NO_SPACE, ERROR_INVALID_CONFIG,
     ERROR_NOT_IMPLEMENTED, ERROR_INVALID_SESSION, ERROR_DIRECTORY_NOT_EMPTY,
     ERROR_INVALID_OPERATION]
  }

  /** `EntryType`; an entry stores it as a raw byte. */
  datatype EntryType = FILE | DIRECTORY

  function EntryTypeValue(t: EntryType): u8
  {
    match t
    case FILE => 0
    case DIRECTORY => 1
  }

  lemma EnumValues()
    ensures ROLE_NORMAL == 0 && ROLE_ADMIN == 1
    ensures EntryTypeValue(FILE) == 0 && EntryTypeValue(DIRECTORY) == 1
  {
  }

  /** `FilePermissions` (UNIX octal modes 0400 ... 0001). */
  const OWNER_READ: bv32 := 0x100
  const OWNER_WRITE: bv32 := 0x80
  const OWNER_EXECUTE: bv32 := 0x40
  const GROUP_READ: bv32 := 0x20
  const GROUP_WRITE: bv32 := 0x10
  const GROUP_EXECUTE: bv32 := 0x8
  const OTHERS_READ: bv32 := 0x4
  const OTHERS_WRITE: bv32 := 0x2
  const OTHERS_EXECUTE: bv32 := 0x1

  /** Octal 0755 and 0644, the default modes of new directories and files. */
  const MODE_0755: bv32 := 0x1ED
  const MODE_0644: bv32 := 0x1A4

  function PermissionBits(): (bits: seq<bv32>)
    ensures |bits| == 9
  {
    [OWNER_READ, OWNER_WRITE, OWNER_EXECUTE, GROUP_READ, GROUP_WRITE, GROUP_EXECUTE,
     OTHERS_READ, OTHERS_WRITE, OTHERS_EXECUTE]
  }

  /** Each permission flag is a single bit, no two flags share a bit, and the owner and group
      flags are the others flags moved up by six and three bit positions. */
  lemma PermissionBitLayout()
    ensures forall i, j :: 0 <= i < j < |PermissionBits()| ==> PermissionBits()[i] & PermissionBits()[j] == 0
    ensures forall i :: 0 <= i < |PermissionBits()| ==> PermissionBits()[i] == 1 << (8 - i)
    ensures OWNER_READ == OTHERS_READ << 6 && OWNER_WRITE == OTHERS_WRITE << 6 && OWNER_EXECUTE == OTHERS_EXECUTE << 6
    ensures GROUP_READ == OTHERS_READ << 3 && GROUP_WRITE == OTHERS_WRITE << 3 && GROUP_EXECUTE == OTHERS_EXECUTE << 3
    ensures MODE_0755 == OWNER_READ | OWNER_WRITE | OWNER_EXECUTE | GROUP_READ | GROUP_EXECUTE | OTHERS_READ | OTHERS_EXECUTE
    ensures MODE_0644 == OWNER_READ | OWNER_WRITE | GROUP_READ | OTHERS_READ
  {
  }

  // ---------------------------------------------------------------------------
  // Fixed-width character fields
  // ---------------------------------------------------------------------------

  const NUL: char := '\0'

  predicate NulFree(s: string)
  {
    forall i :: 0 <= i < |s| ==> s[i] != NUL
  }

  /** The text behind a non-null `const char*` argument: it ends at its first NUL, so it holds none. */
  type CString = s: string | NulFree(s)

  /** The text a `char[cap + 1]` field holds after `strncpy(field, s.c_str(), cap)` and
      `field[cap] = '\0'`, read back as a C string: the longest prefix of `s` that has at most
      `cap` characters and no NUL. */
  function Truncate(s: string, cap: nat): (r: string)
    ensures |r| <= cap && r <= s && NulFree(r)
    ensures |r| == cap || |r| == |s| || s[|r|] == NUL
  {
    if cap == 0 || s == [] || s[0] == NUL then [] else [s[0]] + Truncate(s[1..], cap - 1)
  }

  /** A character array read as a C string: everything before the first NUL. */
  function CStr(s: string): (r: string)
    ensures r <= s && NulFree(r)
    ensures |r| == |s| || s[|r|] == NUL
  {
    Truncate(s, |s|)
  }

  /** Truncation changes nothing on text that already fits, so truncating twice is truncating once. */
  lemma TruncateFits(s: string, cap: nat)
    requires NulFree(s) && |s| <= cap
    ensures Truncate(s, cap) == s
    ensures CStr(s) == s
  {
  }

  lemma TruncateIdempotent(s: string, cap: nat)
    ensures Truncate(Truncate(s, cap), cap) == Truncate(s, cap)
    ensures CStr(Truncate(s, cap)) == Truncate(s, cap)
  {
    TruncateFits(Truncate(s, cap), cap);
  }

  // ---------------------------------------------------------------------------
  // Records
  // ---------------------------------------------------------------------------

  /** One user-table slot (`UserInfo`); the reserved bytes are not modelled. */
  datatype UserInfo = UserInfo(
    username: string,
    passwordHash: string,
    role: u32,
    createdTime: u64,
    lastLogin: u64,
    isActive: u8)

  /** The `UserInfo(user, hash, role, created)` constructor. */
  function NewUserInfo(user: string, hash: string, role: u32, created: u64): (u: UserInfo)
    ensures |u.username| <= 31 && u.username <= user && NulFree(u.username)
    ensures |u.passwordHash| <= 63 && u.passwordHash <= hash && NulFree(u.passwordHash)
    ensures NulFree(user) && |user| <= 31 ==> u.username == user
    ensures NulFree(hash) && |hash| <= 63 ==> u.passwordHash == hash
    ensures u.username == Truncate(user, 31) && u.passwordHash == Truncate(hash, 63)
    ensures u.role == role && u.createdTime == created
    ensures u.lastLogin == 0 && u.isActive == 1
  {
    UserInfo(Truncate(user, 31), Truncate(hash, 63), role, created, 0, 1)
  }

  /** A namespace entry (`FileEntry`); `kind` is the raw type byte. */
  datatype FileEntry = FileEntry(
    name: string,
    kind: u8,
    size: u64,
    permissions: bv32,
    createdTime: u64,
    modifiedTime: u64,
    owner: string,
    inode: u32)

  /** The `FileEntry(filename, type, size, perms, owner, inode)` constructor. */
  function NewFileEntry(filename: string, t: EntryType, size: u64, perms: bv32, owner: string, inode: u32): (e: FileEntry)
    ensures |e.name| <= 255 && e.name <= filename && NulFree(e.name)
    ensures |e.owner| <= 31 && e.owner <= owner && NulFree(e.owner)
    ensures NulFree(filename) && |filename| <= 255 ==> e.name == filename
    ensures NulFree(owner) && |owner| <= 31 ==> e.owner == owner
    ensures e.name == Truncate(filename, 255) && e.owner == Truncate(owner, 31)
    ensures e.kind == EntryTypeValue(t) && e.size == size && e.permissions == perms && e.inode == inode
    ensures e.createdTime == 0 && e.modifiedTime == 0
  {
    FileEntry(Truncate(filename, 255), EntryTypeValue(t), size, perms, 0, 0, Truncate(owner, 31), inode)
  }

  /** `getType()`: the raw byte, which need not be one of the two enumerators. */
  function GetType(e: FileEntry): u8
  {
    e.kind
  }

  /** `setType(t)`: only the type byte changes. */
  function SetType(e: FileEntry, t: EntryType): (r: FileEntry)
    ensures GetType(r) == EntryTypeValue(t)
    ensures r.(kind := e.kind) == e
  {
    e.(kind := EntryTypeValue(t))
  }

  predicate IsDirectory(e: FileEntry)
  {
    GetType(e) == EntryTypeValue(DIRECTORY)
  }

  predicate IsFile(e: FileEntry)
  {
    GetType(e) == EntryTypeValue(FILE)
  }

  /** `FileMetadata`: a path, a copy of an entry, and two counters (reserved bytes not modelled). */
  datatype FileMetadata = FileMetadata(path: string, entry: FileEntry, blocksUsed: u64, actualSize: u64)

  function NewFileMetadata(path: string, entry: FileEntry): (m: FileMetadata)
    ensures |m.path| <= 511 && m.path <= path && NulFree(m.path)
    ensures NulFree(path) && |path| <= 511 ==> m.path == path
    ensures m.path == Truncate(path, 511)
    ensures m.entry == entry && m.blocksUsed == 0 && m.actualSize == 0
  {
    FileMetadata(Truncate(path, 511), entry, 0, 0)
  }

  /** `SessionInfo`: an identifier, a snapshot of the user record, and activity counters. */
  datatype SessionInfo = SessionInfo(
    sessionId: string,
    user: UserInfo,
    loginTime: u64,
    lastActivity: u64,
    operationsCount: u32)

  function NewSessionInfo(id: string, user: UserInfo, login: u64): (s: SessionInfo)
    ensures |s.sessionId| <= 63 && s.sessionId <= id && NulFree(s.sessionId)
    ensures NulFree(id) && |id| <= 63 ==> s.sessionId == id
    ensures s.sessionId == Truncate(id, 63)
    ensures s.user == user
    ensures s.loginTime == login && s.lastActivity == login && s.operationsCount == 0
  {
    SessionInfo(Truncate(id, 63), user, login, login, 0)
  }

  /** `FSStats` without the floating-point fragmentation figure. */
  datatype FsStats = FsStats(
    totalSize: u64,
    usedSpace: u64,
    freeSpace: u64,
    totalFiles: u32,
    totalDirectories: u32,
    totalUsers: u32,
    activeSessions: u32)

  /** `OMNIHeader`; the creator id, date, configuration hash and reserved area are zero-filled
      by its constructor and are not modelled. */
  datatype OmniHeader = OmniHeader(
    magic: seq<char>,
    formatVersion: u32,
    totalSize: u64,
    headerSize: u64,
    blockSize: u64,
    configTimestamp: u64,
    userTableOffset: u32,
    maxUsers: u32,
    fileStateStorageOffset: u32,
    changeLogOffset: u32)
}
