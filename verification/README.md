# file-verse storage engine in Dafny

This project models the storage engine of file-verse, an in-memory virtual filesystem. The engine keeps one container image. That image holds:

- a header;
- a fixed table of user slots;
- a namespace tree of files and directories;
- a block-usage bitmap.

Clients log in and then act through session handles. Every operation answers with an `OFSErrorCodes` result code.

Each piece of the engine is a pure state transformer over immutable values:

- **Containers.**
  - `LinkedList` is the singly linked child list, read as a sequence.
  - `HashTable` is the chained user table: concrete buckets whose abstraction is a finite map.
  - `FreeSpace` is the bitmap ledger, bit-packed in `bv8` bytes, with a first-fit run search written as a loop with invariants.
  - `SessionManager` is the server's socket-to-handle association list.
  - `RequestQueue` is the FIFO of pending requests.
- **Namespace tree (`FsNode`).** A node owns its entry, its payload bytes and, only if it is a directory, a child list. Parent pointers are structural: a node's parent is the node one level up on its location, which is a sequence of child positions.
  - Each tree operation of `FSNode` is modelled: add, get or find, remove and detach by exact name.
  - Walks along a list of names, and updates at a location, come with their algebra.
  - `NodeCount` is the recursive census used for statistics.
- **Managers.**
  - `DirManager`, `FileManager` and `Metadata` each carry their own path resolver, as the code does. Each resolver is proved equal to a walk over the components chosen by a reference splitter (`Paths.Split`):
    - `dir_manager` skips empty components;
    - `file_manager` stops at the first empty component;
    - `metadata` looks empty components up, and ignores only one trailing empty component.
  - `UserManager` covers login, logout, user creation, deletion and listing, and the registry of session handles.
  - `FsCore` covers `fs_format` and `fs_init` over abstract records.
  - `OdfTypes` holds the enumerations and the truncating record constructors.
- **Server text helpers (`ServerText`).** `trim_all`, `tokenize_command` and `error_to_string`.

Integer widths are written out where they matter:

- the hash arithmetic wraps in `size_t`, and the source's `char` is signed;
- the used-space sum of `get_stats` wraps modulo 2^64;
- its counters are truncated to 32 bits;
- the file inode counter is stored modulo 2^32.

Fixed character fields are modelled as `strncpy` truncation (`OdfTypes.Truncate`) followed by reading up to the first NUL (`OdfTypes.CStr`).

Several behaviours of the code are stated as proved properties rather than corrected:

- **Owner check never holds.** The owner comparison in `check_dir_permission` compares array addresses, so it never holds (`DirManager.OwnerNeverConsulted`).
- **Resolvers part on empty components** (`Metadata.EmptyComponentLookedUp`, `FileManager.ResolveStopsAtEmpty`).
- **Magic truncated.** `fs_format` stores the magic truncated to seven characters (`FsCore.MagicTruncated`).
- **Block reservations forgotten.** The blocks `fs_format` reserves are forgotten by the time `fs_init` runs (`FsCore.ReservedBlocksForgotten`).
- **`total_users` is always 0** (`Metadata.GetStats`).
- **Self-rename refused.** Renaming a file onto its own path reports `FILE_EXISTS` (`FileManager.RenameOntoItself`).
- **Rename below a file loses the node.** Renaming a node below a file drops it from the tree (`FileManager.RenameBelowFileLosesNode`).
- **Sessions outlive deleted users** (`UserManager.SessionOutlivesUser`).

Where the system's documented design and its code part, the model follows the code:

- The magic field holds "OMNIFS0" and a NUL, not "OMNIFS01".
- No administrator is seeded: `fs_format` writes default-constructed user slots. The slot contents are therefore a parameter (`blank`).
- No bitmap and no tree beyond the root entry are written, and nothing is saved at shutdown. So there is no save/load round trip, and the ledger after `fs_init` is all free.
- For a non-administrator, `check_dir_permission` consults only the OTHERS bits, even for the node's owner.
- `file_manager` checks ownership only, never permission bits. `file_read` and `file_exists` check no session at all.
- `user_delete` removes the key from the table instead of keeping an inactive slot, so the name can be created again.

## Model

| member | source | states |
|---|---|---|
| OdfTypes.ErrorCodes | source/include/odf_types.hpp:26-39 | the twelve result codes are SUCCESS=0 down to INVALID_OPERATION=-11 in declaration order, pairwise distinct |
| OdfTypes.EnumValues | source/include/odf_types.hpp:16-47 | NORMAL=0, ADMIN=1; FILE=0, DIRECTORY=1 |
| OdfTypes.PermissionBitLayout | source/include/odf_types.hpp:52-62 | the nine permission flags are single, disjoint bits; OWNER_x is OTHERS_x shifted by 6 and GROUP_x by 3; 0755 and 0644 are the expected unions |
| OdfTypes.Truncate | source/include/odf_types.hpp:130-131 | a `char[cap+1]` field filled by `strncpy` holds a NUL-free prefix of the input of at most `cap` characters, cut at the cap or at the input's first NUL |
| OdfTypes.CStr | source/include/odf_types.hpp:130-133 | reading a char field stops at its first NUL: a NUL-free prefix of the stored text |
| OdfTypes.TruncateFits | source/include/odf_types.hpp:130-131 | text that already fits and has no NUL is stored verbatim and reads back unchanged |
| OdfTypes.TruncateIdempotent | source/include/odf_types.hpp:130-131 | truncating twice is truncating once, and a truncated field reads back as stored |
| OdfTypes.NewUserInfo | source/include/odf_types.hpp:128-135 | username is the strncpy cut of the input to 31 characters and the hash to 63 (verbatim when they fit); role and creation time as given; last_login 0, is_active 1 |
| OdfTypes.NewFileEntry | source/include/odf_types.hpp:157-166 | name cut to 255 and owner to 31 characters; type, size, permissions and inode verbatim; both timestamps 0 |
| OdfTypes.SetType | source/include/odf_types.hpp:169-172 | `getType` after `setType(t)` yields t and no other field changes |
| OdfTypes.NewFileMetadata | source/include/odf_types.hpp:190-195 | path cut to 511 characters, entry copied, blocks_used and actual_size 0 |
| OdfTypes.NewSessionInfo | source/include/odf_types.hpp:214-219 | id cut to 63 characters, user copied, last_activity = login_time = login, operations_count 0 |
| LinkedList.Empty | source/include/LinkedList.h:22 | a new list has no elements |
| LinkedList.IndexOf | source/include/LinkedList.h:47-55 | the scan stops at the first element equal to the one sought |
| LinkedList.PushBack | source/include/LinkedList.h:33-42 | contents s become s followed by the new element; length grows by one |
| LinkedList.Remove | source/include/LinkedList.h:44-57 | only the first occurrence is unlinked, the rest keep their order; an absent element changes nothing; length shrinks by one exactly when present |
| LinkedList.RemoveMultiset | source/include/LinkedList.h:44-57 | removal drops exactly one copy of a present element and nothing else |
| LinkedList.RemoveAfterPushBack | source/include/LinkedList.h:33-57 | removing an element just appended to a list not holding it restores the list |
| FsNode.NewNode | source/FSNode.cpp:3-9 | a node has a child list iff its entry's type byte says DIRECTORY, and that list starts empty |
| FsNode.FindFrom | source/FSNode.cpp:32-39 | the scan from position k returns the first child whose stored name equals the name, or reports that none from k on does |
| FsNode.ChildIndex | source/FSNode.cpp:30-40 | the position `getChild` stops at: the first child with the name; none exactly when no child has it (or there is no list) |
| FsNode.GetChild | source/FSNode.cpp:30-40 | null iff no child carries the name; otherwise a listed child carrying it |
| FsNode.FindChild | source/FSNode.cpp:42-44 | `findChild` answers exactly as `getChild` |
| FsNode.AddChild | source/FSNode.cpp:23-28 | a directory with a list gets the child appended last; any other node is unchanged |
| FsNode.AddChildKeepsDuplicates | source/FSNode.cpp:23-28 | a duplicate name is accepted and appended, and lookups still find the earlier child |
| FsNode.AddChildKeepsKids | source/FSNode.cpp:23-28 | adding only ever appends: earlier children stay at their positions |
| FsNode.RemoveFound | source/FSNode.cpp:46-52 | `children->remove` of the child `getChild` found unlinks exactly that child's position |
| FsNode.RemoveChild | source/FSNode.cpp:46-52 | false and no change iff no child has the name; otherwise the first such child is unlinked |
| FsNode.DetachChild | source/FSNode.cpp:54-60 | null and no change iff absent; otherwise the first matching child is handed back intact and unlinked, the others keep their order |
| FsNode.DetachThenAdd | source/FSNode.cpp:23-60 | detaching a child and adding it back moves only that child, to the end |
| FsNode.WithoutSize | source/FSNode.cpp:46-52 | unlinking a child removes exactly the nodes of its subtree |
| FsNode.AppendAt | source/FSNode.cpp:23-28 | `addChild` on the node at a location, the rest of the tree shared |
| FsNode.RemoveAt | source/FSNode.cpp:54-60 | unlinking the node at a location from its parent |
| FsNode.RemoveAtSize | source/FSNode.cpp:46-52 | unlinking a node at a location removes its whole subtree from the tree |
| FsNode.AppendAtSize | source/FSNode.cpp:23-28 | linking below a directory adds exactly the new subtree's nodes |
| FsNode.Walk | source/FSNode.cpp:30-40 | a chain of `getChild` calls, one per name, ends at a valid location or fails |
| FsNode.WalkShape | source/FSNode.cpp:30-40 | a successful walk goes exactly one level down per name |
| FsNode.WalkFromAt | source/FSNode.cpp:30-40 | a walk from a location depends only on the subtree there |
| FsNode.WalkAppend | source/FSNode.cpp:30-40 | walking a + b is walking a, then b from where a ended |
| FsNode.WalkNoneIff | source/FSNode.cpp:30-40 | a walk fails iff some name is missing where the walk has got to |
| FsNode.WalkFailure | source/FSNode.cpp:30-40 | a failed walk names the first position whose name is missing below where the walk had got |
| FsNode.ChildIndexNames | source/FSNode.cpp:30-40 | `getChild` reads names only: nodes whose children carry the same names answer alike |
| FsNode.WalkReplaceAt | source/FSNode.cpp:30-40 | replacing a node by one with the same name keeps every walk that reached it |
| FsNode.WalkToAppended | source/FSNode.cpp:23-40 | after a child with a fresh name is added below a directory, the walk with that name reaches it, last in the list |
| FsNode.AddChildEntries | source/FSNode.cpp:23-28 | `addChild` on a directory adds the new child's entry at the end of the listing |
| FsNode.FoundByOwnName | source/FSNode.cpp:30-40 | a node reached by a walk is the one `getChild` of its own stored name finds in its parent |
| FsNode.DisjointReplaced | source/FSNode.cpp:23-60 | an update at one location leaves every node off its path and outside its subtree unchanged |
| NodeCount.CountKids | source/core/metadata.cpp:8-16 | a node's census is its own kind plus the census of its children |
| NodeCount.CountAtMostSize | source/core/metadata.cpp:8-16 | files + dirs never exceed the number of nodes in the subtree |
| NodeCount.CountIsSize | source/core/metadata.cpp:8-16 | when every type byte is FILE or DIRECTORY, files + dirs equals the number of nodes, the node itself included |
| NodeCount.AppendAtCount | source/core/metadata.cpp:8-16 | linking a node below a directory adds exactly its subtree's census |
| NodeCount.RemoveAtCount | source/core/metadata.cpp:8-16 | unlinking a node takes exactly its subtree's census away |
| NodeCount.ReplaceAtCount | source/core/metadata.cpp:8-16 | replacing a subtree changes the census by exactly the new subtree minus the old one |
| HashTable.HashStep | source/include/HashTable.h:30 | one round of `h = (h*31 + c) % capacity`, with size_t wrap and a signed char, stays below capacity |
| HashTable.Hash | source/include/HashTable.h:27-33 | with capacity > 0 the bucket index is below capacity |
| HashTable.New | source/include/HashTable.h:37-39 | capacity empty chains, size 0, no keys; well formed when capacity > 0 |
| HashTable.ChainIndex | source/include/HashTable.h:58-62 | the chain scan stops at the first node with the key, or finds none |
| HashTable.KeyInOwnChain | source/include/HashTable.h:56-62 | a key is stored iff the chain its hash selects carries it |
| HashTable.Get | source/include/HashTable.h:71-79 | a value iff the key is stored, null otherwise |
| HashTable.Contents | source/include/HashTable.h:55-101 | the table's abstraction: a finite map whose keys are the stored keys and whose values `get` returns |
| HashTable.GetSize | source/include/HashTable.h:100-101 | size equals the number of distinct stored keys |
| HashTable.Insert | source/include/HashTable.h:55-68 | a present key gives false and no change; a new key gives true, size + 1, `get` yields the value; every other key keeps its value |
| HashTable.PrependedGet | source/include/HashTable.h:63-66 | linking a new node at its chain's head keeps the table well formed and changes only that key |
| HashTable.ChainRemoveDrops | source/include/HashTable.h:85-96 | the unlink loop drops exactly the first node with the key, or leaves the chain alone |
| HashTable.Remove | source/include/HashTable.h:81-98 | a present key gives true, size - 1, `get` null afterwards; an absent key gives false and no change; other keys keep their values |
| HashTable.UnlinkedGet | source/include/HashTable.h:86-92 | unlinking a key's node keeps every other key's value |
| HashTable.AllKeysSpec | source/core/user_manager.cpp:113-114 | enumerating the buckets lists every stored key exactly once, so the count equals `size` |
| FreeSpace.New | source/include/FreeSpaceManager.h:14-17 | (total + 7) / 8 zero bytes: every block below total is free |
| FreeSpace.MarkUsed | source/include/FreeSpaceManager.h:20-24 | the block becomes used; every other block keeps its status |
| FreeSpace.MarkFree | source/include/FreeSpaceManager.h:27-31 | the block becomes free; every other block keeps its status |
| FreeSpace.MarkIdempotent | source/include/FreeSpaceManager.h:20-31 | marking used twice, or free twice, is marking once |
| FreeSpace.FindFreeBlocks | source/include/FreeSpaceManager.h:41-55 | a result r >= 0 starts N free blocks ending within total; no earlier start has such a run; -1 exactly when N = 0 or no run exists |
| FreeSpace.ScanFree | source/include/FreeSpaceManager.h:46-48 | a free block lengthens the current stretch and keeps "no run yet" |
| FreeSpace.ScanUsed | source/include/FreeSpaceManager.h:50-52 | a used block resets the stretch and keeps "no run yet" |
| FreeSpace.RunFound | source/include/FreeSpaceManager.h:46-49 | when the stretch reaches N its start begins a run and is the first such start |
| Paths.Find | source/core/dir_manager.cpp:15 | `find('/', start)`: the first '/' at or after start, or the end for npos |
| Paths.FindFirst | source/core/dir_manager.cpp:15 | no '/' lies between start and the position `find` answers |
| Paths.FindLast | source/core/dir_manager.cpp:77 | `find_last_of('/')`: the last '/' or npos when there is none |
| Paths.SplitLast | source/core/dir_manager.cpp:77-79 | parent path and last name: "/" when the last '/' is the first character, the prefix before it otherwise; the name holds no '/' |
| Paths.SplitNoSlash | source/core/dir_manager.cpp:14-24 | no component between slashes contains a '/' |
| Paths.JoinSplit | source/core/dir_manager.cpp:14-24 | the components joined with '/' give the path back |
| Paths.SplitJoin | source/core/dir_manager.cpp:14-24 | components without '/' are recovered from their join |
| Paths.NonEmpty | source/core/dir_manager.cpp:17 | the components with the empty ones skipped, order kept |
| Paths.TakeUntilEmpty | source/core/file_manager.cpp:31 | the components before the first empty one |
| Paths.DropTrailingEmpty | source/core/metadata.cpp:27-34 | the components with at most one trailing empty component dropped |
| Paths.CleanComponents | source/core/file_manager.cpp:28-38 | on a path with no empty component all three ways of choosing components agree |
| Paths.NonEmptySkipsDouble | source/core/dir_manager.cpp:17 | once empty components are skipped, "//" acts as "/" |
| Paths.TakeUntilEmptyStops | source/core/file_manager.cpp:31 | the first empty component ends the file resolver's names, whatever follows |
| Paths.SplitLastComponents | source/core/dir_manager.cpp:77-79 | an absolute path's components are its parent path's, then its name |
| DirManager.DirTokensSplit | source/core/dir_manager.cpp:14-24 | the names the resolver loop looks up are exactly the non-empty components |
| DirManager.Resolve | source/core/dir_manager.cpp:7-26 | null without a leading '/'; root for "/"; otherwise the walk over the non-empty components |
| DirManager.ResolveSkipsEmpty | source/core/dir_manager.cpp:17 | "/a//b" resolves as "/a/b" |
| DirManager.ResolveIgnoresTrailingSlash | source/core/dir_manager.cpp:14-24 | "/a/" resolves as "/a" |
| DirManager.ResolveSameComponents | source/core/dir_manager.cpp:14-24 | two absolute paths with the same non-empty components name the same node |
| DirManager.ResolveNoneIff | source/core/dir_manager.cpp:19-20 | an absolute path fails to resolve iff some component has no matching child |
| DirManager.OthersBits | source/core/dir_manager.cpp:53-59 | the requested OWNER_x flags become the matching OTHERS_x flags |
| DirManager.CheckDirPermission | source/core/dir_manager.cpp:30-63 | false for a null or unregistered session; true for ADMIN; otherwise true iff all mapped OTHERS bits are set |
| DirManager.OwnerNeverConsulted | source/core/dir_manager.cpp:40-50 | the owner never changes the answer, and mode 0700 refuses a write to every non-admin, owner included |
| DirManager.OwnerOnlyRefuses | source/core/dir_manager.cpp:53-61 | owner-only mode bits never carry the OTHERS_WRITE flag a write request maps to |
| DirManager.DirEntry | source/core/dir_manager.cpp:98-99 | a new directory's entry: DIRECTORY, mode 0755, size 0, inode 0 |
| DirManager.DirCreate | source/core/dir_manager.cpp:69-105 | INVALID_OPERATION iff null arguments, no leading '/' or empty name; NOT_FOUND iff otherwise the parent is unresolved; PERMISSION_DENIED iff otherwise the parent is not writable; FILE_EXISTS iff otherwise the name is taken; success appends a 0755 directory owned by the caller; errors leave the tree alone |
| DirManager.DirComponents | source/core/dir_manager.cpp:77-79 | the new directory's path components are its parent's followed by its name |
| DirManager.DirCreateThenResolve | source/core/dir_manager.cpp:84-101 | after success below a directory the path resolves to a new empty 0755 directory, last among the parent's children, owned by the caller |
| DirManager.DirCreateThenExists | source/core/dir_manager.cpp:177-184 | a directory just created below a directory then exists |
| DirManager.DirList | source/core/dir_manager.cpp:110-138 | INVALID_OPERATION iff null arguments or a non-directory; NOT_FOUND iff unresolved; PERMISSION_DENIED iff a directory the caller may not read; on success, copies of the children's entries in insertion order, one per child |
| DirManager.ListReadable | source/core/dir_manager.cpp:110-138 | a directory the caller may read always lists successfully, with its children's entries |
| DirManager.ListAfterAppend | source/core/dir_manager.cpp:110-138 | after `addChild` on a readable directory its listing is the earlier one followed by the new child's entry |
| DirManager.ResolveReplaced | source/core/dir_manager.cpp:7-26 | replacing the node a path names by one with the same name keeps the path's answer |
| DirManager.DirCreateThenList | source/core/dir_manager.cpp:69-138 | listing the parent after a successful `dir_create` gives the earlier entries followed by the new directory's entry |
| DirManager.DirDelete | source/core/dir_manager.cpp:143-172 | INVALID_OPERATION iff null arguments, "/", a file, or the root by another spelling; NOT_FOUND iff unresolved; PERMISSION_DENIED iff otherwise the parent is not writable; DIRECTORY_NOT_EMPTY iff writable but non-empty, so permission is checked first; errors leave the tree alone |
| DirManager.DirDeleteRemovesTarget | source/core/dir_manager.cpp:158-168 | success unlinks exactly the node the path names and loses only its node |
| DirManager.DirExists | source/core/dir_manager.cpp:177-185 | SUCCESS iff a directory, NOT_FOUND iff unresolved, INVALID_OPERATION otherwise; no session is consulted |
| FileManager.DefaultRoot | source/core/file_manager.cpp:10-13 | a missing root becomes an empty "/" directory, mode 0755, owned by "admin" |
| FileManager.Init | source/core/file_manager.cpp:7-16 | an existing root is kept; the inode counter is at least 1 and unchanged unless it was 0 |
| FileManager.FileTokensSplit | source/core/file_manager.cpp:28-38 | the names the resolver loop looks up are the components before the first empty one |
| FileManager.Resolve | source/core/file_manager.cpp:22-40 | null without a leading '/'; otherwise the walk over the components before the first empty one |
| FileManager.ResolveStopsAtEmpty | source/core/file_manager.cpp:30-31 | "/a//b" resolves as "/a", and "//b" to the root |
| FileManager.ResolversAgreeOnClean | source/core/file_manager.cpp:22-40 | on a path with no empty component this resolver agrees with `dir_manager`'s |
| FileManager.CheckPermissions | source/core/file_manager.cpp:42-53 | true iff the session is registered and is ADMIN or its username equals the node's owner |
| FileManager.ModeIgnored | source/core/file_manager.cpp:42-53 | permission bits never change who may act on a node |
| FileManager.Payload | source/core/file_manager.cpp:97-98 | the stored bytes are data[0..size), nothing for null data |
| FileManager.NewFile | source/core/file_manager.cpp:88-94 | a FILE entry, mode 0644, size field 0, owner the caller, inode the counter (32-bit), carrying the payload |
| FileManager.FileCreate | source/core/file_manager.cpp:57-101 | INVALID_OPERATION iff null arguments or an empty name; PERMISSION_DENIED iff an unregistered session or, past the parent checks, a parent the caller does not own (as non-ADMIN); NOT_FOUND iff the parent is unresolved or not a directory; FILE_EXISTS iff otherwise the name is taken; success appends the new file and the counter grows by 1 |
| FileManager.FileRead | source/core/file_manager.cpp:103-113 | SUCCESS iff the path resolves to a FILE, with an exact copy of its bytes; NOT_FOUND otherwise |
| FileManager.CreateLands | source/core/file_manager.cpp:88-95 | a file created on a clean path resolves last among its parent's children as the node built |
| FileManager.CreateThenRead | source/core/file_manager.cpp:57-113 | reading a file just created gives exactly data[0..size) |
| FileManager.CreateTwice | source/core/file_manager.cpp:82-83 | creating the same path again gives FILE_EXISTS and changes nothing |
| FileManager.Overwrite | source/core/file_manager.cpp:123-126 | new length max(len, index + size); bytes in [index, index + size) are the data, all others unchanged |
| FileManager.OverwriteExample | source/core/file_manager.cpp:120-126 | "Hello, OFS!" edited at 7 with "World!" becomes "Hello, World!" |
| FileManager.FileEdit | source/core/file_manager.cpp:115-128 | PERMISSION_DENIED for an unresolved path or no ownership; INVALID_OPERATION iff index > length; success overwrites the node's bytes only |
| FileManager.EditThenRead | source/core/file_manager.cpp:115-128 | reading an edited file gives the overwritten bytes |
| FileManager.FileTruncate | source/core/file_manager.cpp:145-152 | PERMISSION_DENIED iff unresolved or not allowed; success empties the bytes only |
| FileManager.TruncateThenRead | source/core/file_manager.cpp:145-152 | a truncated file reads back empty with its entry, size field included, unchanged |
| FileManager.FileDelete | source/core/file_manager.cpp:130-143 | PERMISSION_DENIED iff unresolved or not allowed; INVALID_OPERATION for the root; success removes the node and its subtree |
| FileManager.FileExists | source/core/file_manager.cpp:154-157 | SUCCESS iff the path resolves, directories and root included; NOT_FOUND otherwise |
| FileManager.CreateThenExists | source/core/file_manager.cpp:154-157 | a file just created then exists |
| FileManager.Renamed | source/core/file_manager.cpp:182-183 | only the name changes, cut to 255 characters |
| FileManager.FileRename | source/core/file_manager.cpp:159-190 | PERMISSION_DENIED, NOT_FOUND, FILE_EXISTS each iff their condition; renaming the root has no outcome (null parent dereferenced); success detaches the node and appends it renamed under the new parent |
| FileManager.RenameOntoItself | source/core/file_manager.cpp:171-173 | renaming a node onto its own clean path gives FILE_EXISTS and changes nothing |
| FileManager.RenameWithinDirectory | source/core/file_manager.cpp:176-187 | renaming inside one directory keeps the other children in order and puts the renamed node last |
| FileManager.MoveWithinParent | source/core/file_manager.cpp:179-187 | detaching and re-adding under the same parent moves the node to the end |
| FileManager.RenameKeepsNodes | source/core/file_manager.cpp:176-187 | moving below a directory outside the node's subtree keeps the node count |
| FileManager.RenameBelowFileLosesNode | source/core/file_manager.cpp:176-187 | moving below a file drops the node from the tree, with its subtree |
| Metadata.MetaTokensSplit | source/core/metadata.cpp:27-34 | the names the loop looks up are the components, with only a trailing empty one dropped |
| Metadata.Resolve | source/core/metadata.cpp:22-35 | root for "/" or a one-character path; otherwise the walk over those components after skipping the first character |
| Metadata.FirstCharacterIgnored | source/core/metadata.cpp:26 | the first character plays no part, whatever it is |
| Metadata.TrailingSlashIgnored | source/core/metadata.cpp:27-34 | one trailing '/' after a clean path changes nothing |
| Metadata.ResolversAgreeOnClean | source/core/metadata.cpp:22-35 | on a clean path all three resolvers agree |
| Metadata.EmptyComponentLookedUp | source/core/metadata.cpp:29-31 | "//b" gives NOT_FOUND here (root asked for ""), the root for `file_manager`, and "/b" for `dir_manager` |
| Metadata.GetMetadata | source/core/metadata.cpp:19-39 | INVALID_OPERATION iff null path; NOT_FOUND iff unresolved; success copies the entry with blocks_used = actual_size = 0 and the path cut by strncpy to 511 characters |
| Metadata.SetPermissions | source/core/metadata.cpp:42-61 | no authorization; NOT_FOUND iff unresolved; success rewrites only the permission word of the resolved node |
| Metadata.SetThenGet | source/core/metadata.cpp:37-59 | chmod then stat: the path still resolves and reads back the entry with the new permissions |
| Metadata.SetPermissionsElsewhere | source/core/metadata.cpp:59 | chmod changes no node off the target's path |
| Metadata.WithOwner | source/include/core/metadata.h:65-66 | only the owner changes, cut to 31 characters |
| Metadata.SetOwner | source/include/core/metadata.h:40-74 | -2 for a null or non-ADMIN session; -1 for an unresolved path or unknown new owner; success changes only the owner, permissions kept |
| Metadata.OwnerGainsFileAccess | source/include/core/metadata.h:65-66 | after chown, any registered session of the new owner passes `file_manager`'s ownership test |
| Metadata.SetOwnerThenGet | source/include/core/metadata.h:65-73 | chown then stat reads back the entry with the new owner |
| Metadata.UsedFrom | source/core/metadata.cpp:99-102 | the 64-bit sum of the size fields of the FILE entries among root's children |
| Metadata.GetStats | source/core/metadata.cpp:64-107 | total_size from the header; total_users 0; census of the tree; sessions counted; used space from root's direct FILE children; free space is total - used clamped at 0 |
| Metadata.AppendAtFileBytes | source/core/metadata.cpp:99-102 | only a FILE linked directly below the root changes the used space |
| Metadata.StatsAfterFileCreate | source/core/metadata.cpp:71-104 | a new file adds one to the file count and nothing to used space (its size field is 0) |
| Metadata.StatsAfterDirCreate | source/core/metadata.cpp:71-104 | a new directory adds one to the directory count and nothing to used space |
| Metadata.MessageNames | source/core/metadata.cpp:117-128 | one name per result code, in code order |
| Metadata.GetErrorMessage | source/core/metadata.cpp:115-131 | each of the twelve codes maps to its enumerator's name, anything else to "UNKNOWN_ERROR" |
| Metadata.CodeOfMessage | source/core/metadata.cpp:115-131 | a message names at most one code, and "UNKNOWN_ERROR" none |
| Metadata.MessageRoundTrip | source/core/metadata.cpp:115-131 | every code is recovered from its message |
| Metadata.ServerNamesDiffer | source/server/server.cpp:91-107 | the server's names agree with these on every code but FILE_EXISTS ("ERROR_EXISTS"); unknown codes are "ERROR_UNKNOWN" there |
| UserManager.NewRegistry | source/core/user_manager.cpp:10-11 | a new manager has no sessions |
| UserManager.IndexOfHandle | source/core/user_manager.cpp:26-28 | the scan stops at the first session registered at the address |
| UserManager.FindSession | source/core/user_manager.cpp:25-30 | null iff the handle is null or unregistered; otherwise a registered session at that address |
| UserManager.FindRegistered | source/core/user_manager.cpp:25-30 | with distinct addresses the session found is the one registered there |
| UserManager.CheckAdmin | source/core/user_manager.cpp:20-23 | true iff the handle is registered and its user snapshot has role ADMIN |
| UserManager.GetSessionInfo | source/core/user_manager.cpp:125-133 | INVALID_SESSION for a null or unregistered handle, otherwise an exact copy of the registered session |
| UserManager.HexBytes | source/core/user_manager.cpp:37-38 | two lowercase hex digits per byte |
| UserManager.UnHexHexBytes | source/core/user_manager.cpp:36-40 | the hex text decodes back to the bytes |
| UserManager.HashPassword | source/core/user_manager.cpp:32-41 | 62 lowercase hex digits, NUL-free |
| UserManager.HashPasswordDecodes | source/core/user_manager.cpp:32-41 | the hash is the first 31 digest bytes: decoding it gives them back |
| UserManager.HashPasswordStored | source/core/user_manager.cpp:32-41 | the hash fits the 63-character field and reads back unchanged |
| UserManager.Decimal | source/core/user_manager.cpp:64 | `to_string` of a clock value: non-empty decimal digits without a leading zero |
| UserManager.ParseDecimalOfDecimal | source/core/user_manager.cpp:64 | the printed clock value parses back |
| UserManager.Login | source/core/user_manager.cpp:45-70 | INVALID_OPERATION iff a null argument; NOT_FOUND iff absent or inactive; PERMISSION_DENIED on a hash mismatch; success registers exactly one new session holding a snapshot of the user |
| UserManager.Logout | source/core/user_manager.cpp:72-82 | INVALID_SESSION iff unregistered; success erases exactly that handle and every other handle keeps its session |
| UserManager.EraseKeeps | source/core/user_manager.cpp:76-79 | erasing one session keeps the registry well formed and all other bindings |
| UserManager.EraseFind | source/core/user_manager.cpp:76-79 | after the erase the handle finds nothing, and every other handle finds what it found before |
| UserManager.Create | source/core/user_manager.cpp:84-95 | PERMISSION_DENIED iff not an admin session; FILE_EXISTS iff the name is stored; success stores an active record with the hashed password and touches no other key |
| UserManager.Delete | source/core/user_manager.cpp:97-107 | admin only; NOT_FOUND iff absent; success removes exactly that key |
| UserManager.Records | source/core/user_manager.cpp:117-120 | one copied record per listed key, each the record stored under it |
| UserManager.RecordsCover | source/core/user_manager.cpp:117-120 | every copied record is stored and every listed key's record is copied |
| UserManager.List | source/core/user_manager.cpp:109-123 | admin only; count equals the number of keys; the records are exactly the stored ones |
| UserManager.CreateThenLogin | source/core/user_manager.cpp:84-95 | a user just created logs in with the password given |
| UserManager.CreateThenWrongPassword | source/core/user_manager.cpp:58-61 | a password with a different hash is refused with PERMISSION_DENIED |
| UserManager.DeleteThenLogin | source/core/user_manager.cpp:97-107 | after deletion login gives NOT_FOUND and the name can be created again |
| UserManager.LogoutTwice | source/core/user_manager.cpp:72-82 | a second logout of the same handle gives INVALID_SESSION |
| UserManager.SessionOutlivesUser | source/core/user_manager.cpp:97-107 | deleting a user leaves its sessions registered with their snapshots while new logins fail |
| FsCore.UsedBlocksCover | source/core/fs_core.cpp:30 | the used-block count is the image length rounded up to whole blocks and fits the container |
| FsCore.FormatHeader | source/core/fs_core.cpp:11-16 | version 0x00010000, 50 MiB, block size 4096, header size = user table offset = sizeof header, max users 1024, the truncated magic |
| FsCore.RootEntry | source/core/fs_core.cpp:25 | "root", DIRECTORY, 0755, owner "admin", inode 0 |
| FsCore.MarkLeading | source/core/fs_core.cpp:28-31 | total_size / block_size blocks, the first n used and the rest free |
| FsCore.Format | source/core/fs_core.cpp:7-35 | IO_ERROR iff the target cannot be opened; otherwise header, 1024 identical slots, the root entry, and a ledger with exactly the image's blocks used |
| FsCore.FirstActive | source/core/fs_core.cpp:50-55 | the first active slot filed under a name |
| FsCore.FirstActiveFound | source/core/fs_core.cpp:50-55 | a name has a first active slot iff some active slot carries it |
| FsCore.OfferKeys | source/core/fs_core.cpp:53-54 | an active slot adds its key; an inactive one adds nothing |
| FsCore.OfferGet | source/core/fs_core.cpp:53-54 | only a key not yet present takes the offered slot |
| FsCore.HydrateGet | source/core/fs_core.cpp:50-55 | after the loop each name maps to its first active slot |
| FsCore.LoadUsers | source/core/fs_core.cpp:48-55 | a table with one bucket per slot |
| FsCore.LoadUsersSpec | source/core/fs_core.cpp:48-55 | the loaded keys are exactly the active slots' names, each with its first active slot |
| FsCore.Init | source/core/fs_core.cpp:37-68 | IO_ERROR iff it cannot be opened; otherwise the header as read, active users loaded, a root with no children, an all-free ledger of total_size / block_size blocks, no sessions |
| FsCore.MagicTruncated | source/core/fs_core.cpp:12 | the magic is "OMNIFS0" and a NUL, not "OMNIFS01" |
| FsCore.UniformActiveKeys | source/core/fs_core.cpp:20-22 | a table of copies of one slot has that slot's name as only active key, or none |
| FsCore.FormatThenInit | source/core/fs_core.cpp:7-68 | loading a fresh image gives back its header and root, and users only if the blank slot is active |
| FsCore.ReservedBlocksForgotten | source/core/fs_core.cpp:62-63 | block 0, used in the formatter's ledger, is free after loading |
| SessionManager.SocketsCons | source/server/session_manager.cpp:6-10 | the sockets of a list are its head's and those of the rest |
| SessionManager.GetSession | source/server/session_manager.cpp:5-12 | null iff the socket is not listed; otherwise a handle stored for it |
| SessionManager.GetSessionAt | source/server/session_manager.cpp:5-12 | with unique sockets the handle found is the one stored at the socket's node |
| SessionManager.SetSession | source/server/session_manager.cpp:14-25 | a listed socket is overwritten in place, length kept; a new one is prepended; `get_session` then returns the handle; other sockets unchanged; sockets stay unique |
| SessionManager.SetInPlace | source/server/session_manager.cpp:15-22 | the in-place overwrite keeps every node's socket and changes only the target's handle |
| SessionManager.RemoveSession | source/server/session_manager.cpp:27-39 | an absent socket changes nothing; otherwise one node goes, `get_session` is null and other sockets keep their handles |
| SessionManager.SetThenRemove | source/server/session_manager.cpp:14-39 | setting then removing a new socket restores the list |
| RequestQueue.Head | source/include/RequestQueue.cpp:40-43 | `head` is null iff no request is pending, else the oldest |
| RequestQueue.Tail | source/include/RequestQueue.cpp:25-30 | `tail` is null iff no request is pending, else the newest |
| RequestQueue.New | source/include/RequestQueue.cpp:8 | head and tail both null |
| RequestQueue.Push | source/include/RequestQueue.cpp:21-32 | appends at the tail, head kept; head null iff tail null |
| RequestQueue.Pop | source/include/RequestQueue.cpp:34-48 | on a non-empty queue returns the oldest request and removes it; head null iff tail null |
| RequestQueue.FifoOrder | source/include/RequestQueue.cpp:21-48 | requests come out in the order pushed, each with its socket and text |
| RequestQueue.DrainIsPending | source/include/RequestQueue.cpp:34-48 | popping until empty yields the pending requests in order |
| ServerText.SkipSpace | source/server/server.cpp:112 | advances past leading whitespace to the first other character or the end |
| ServerText.BackSpace | source/server/server.cpp:114-115 | moves back over trailing whitespace, never below b |
| ServerText.TrimAll | source/server/server.cpp:110-117 | "" iff all whitespace; otherwise a contiguous substring with no leading or trailing whitespace, only whitespace cut around it |
| ServerText.TrimIdempotent | source/server/server.cpp:110-117 | trimming twice is trimming once |
| ServerText.TokenizeFromPieces | source/server/server.cpp:123-131 | the loop, at every point, ends with the non-empty whitespace-separated pieces of the line |
| ServerText.TokenizeIsPieces | source/server/server.cpp:120-133 | the tokens are exactly the non-empty pieces between whitespace, in order |
| ServerText.TokenizeProperties | source/server/server.cpp:120-133 | tokens are non-empty and whitespace-free; concatenated they give the line without whitespace; an all-whitespace line gives none |
| ServerText.SqueezeAllSpace | source/server/server.cpp:120-133 | an all-whitespace line carries no characters outside whitespace |
| ServerText.ErrorToString | source/server/server.cpp:91-107 | a value that is no result code becomes "ERROR_UNKNOWN" |

## Left out

- Socket I/O, the accept loop, client threads, request parsing beyond `trim_all` and `tokenize_command`, response framing, and the commented-out older server. These are network plumbing around the engine.
- The mutex and condition variable of the request queue, and cross-thread access to the session list. Only sequential behaviour is modelled. `pop` on an empty queue, which blocks in the source, is a precondition.
- SHA-256. It is a parameter, an arbitrary function onto 32-byte digests.
- Clocks. `time(nullptr)` readings are parameters; `user_login` takes two of them because it reads the clock twice.
- File streams. Whether a file opens is a boolean parameter. Byte layout, struct padding and record sizes are abstract: the three `sizeof` values are parameters.
- The reserved offsets of the header are left uninitialised by its constructor, so they are a parameter.
- Null output pointers (`entries`, `count`, `meta`, `users_out`, `buffer`). The model returns values instead, so the INVALID_OPERATION answers for them are not modelled; null input paths and sessions are.
- `FSNode::find_node_by_path`, which `set_owner` calls, is not declared in the headers. `Metadata.SetOwner` takes its answer as a parameter.
- `HashTable::getAllKeys`, `getBuckets` and `get_size` are not declared either. They are modelled as bucket-by-bucket enumeration and the key count.
- `FSNode::getChildren` is read as the child list in order.
- `next_file_index` is not a field of the declared instance; it is an explicit counter.
- Session handles are fresh numbers. Address reuse after `delete` is not modelled.
- `fs_shutdown`, destructors, `free_buffer`, leaks and double frees. These are memory management only.
- The fragmentation figure of `get_stats`, `printBitmap`, `FSNode::print` and debug output. These are floating point and console output.
- `user_manager::total_users`, which returns the key count. It is already covered by `HashTable.GetSize`.
- Metadata.GetStats: the `is_active` loop over the buckets is dropped. Its count is overwritten with 0 before use, so only the 0 is modelled.
- FsCore.Init: requires the image to hold as many slots as the header announces and a nonzero block size. A short or corrupt image, and a division by a zero block size, are not modelled. With `max_users` 0 the table has no buckets and is not well formed.
- ServerText.ErrorToString: the names of the twelve known codes are stated through `Metadata.ServerNamesDiffer` rather than in its own contract.
- Characters: a Dafny `char` stands for one byte of a C++ `std::string`. Text is taken to be single-byte (ASCII or Latin-1), so the 31, 63, 255 and 511 caps count bytes and `HashTable.Hash` sees the bytes the source hashes only for such text. Multi-byte UTF-8 names are not modelled.
