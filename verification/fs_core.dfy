/** Formatting a container image and loading it back (`fs_format`, `fs_init`). The image is a
    sequence of fixed-size records — header, `max_users` user slots, one root entry — and the
    record sizes are symbolic: the model never looks at bytes. */
module FsCore {
  import opened Base
  import opened OdfTypes
  import opened FsNode
  import HashTable
  import FreeSpace

  // ---------------------------------------------------------------------------
  // Constants of fs_format
  // ---------------------------------------------------------------------------

  const FORMAT_VERSION: u32 := 0x00010000
  /** 50 MiB. */
  const TOTAL_SIZE: u64 := 52428800
  const BLOCK_SIZE: u64 := 4096
  const MAX_USERS: u32 := 1024

  /** What the magic field holds: the zeroed 8-byte array after copying `sizeof - 1` = 7
      characters of "OMNIFS01", so the final '1' never lands. */
  const MAGIC: string := "OMNIFS0" + [NUL]

  /** `sizeof(OMNIHeader)`, `sizeof(UserInfo)` and `sizeof(FileEntry)`. */
  datatype Sizes = Sizes(header: nat, slot: nat, entry: nat)

  /** The byte length of a formatted image: header, every user slot, the root entry. */
  function ImageBytes(sz: Sizes): nat
  {
    sz.header + MAX_USERS * sz.slot + sz.entry
  }

  /** The header size fits the 32-bit offset field and the whole image fits the container, so
      every block `fs_format` marks has a bit in the ledger. */
  predicate Fits(sz: Sizes)
  {
    sz.header < TWO_32 && ImageBytes(sz) <= TOTAL_SIZE
  }

  /** `(sizeof(header) + max_users * sizeof(UserInfo) + sizeof(FileEntry) + block_size - 1) / block_size`. */
  function UsedBlocks(sz: Sizes): nat
  {
    (ImageBytes(sz) + BLOCK_SIZE - 1) / BLOCK_SIZE
  }

  /** The used-block count is the image length rounded up to whole blocks: the blocks it names
      cover every byte of the image and the last one is not wholly past its end. */
  lemma UsedBlocksCover(sz: Sizes)
    ensures ImageBytes(sz) <= UsedBlocks(sz) * BLOCK_SIZE
    ensures UsedBlocks(sz) * BLOCK_SIZE < ImageBytes(sz) + BLOCK_SIZE
    ensures Fits(sz) ==> UsedBlocks(sz) <= TOTAL_SIZE / BLOCK_SIZE
  {
    var n := ImageBytes(sz);
    var q := UsedBlocks(sz);
    assert n + BLOCK_SIZE - 1 == q * BLOCK_SIZE + (n + BLOCK_SIZE - 1) % BLOCK_SIZE;
    if Fits(sz) {
      assert n + BLOCK_SIZE - 1 < (TOTAL_SIZE / BLOCK_SIZE + 1) * BLOCK_SIZE;
    }
  }

  // ---------------------------------------------------------------------------
  // The image
  // ---------------------------------------------------------------------------

  /** A container image in region order: the header, the user-table slots, the root entry. */
  datatype Image = Image(header: OmniHeader, slots: seq<UserInfo>, root: FileEntry)

  /** The two reserved offsets the header constructor leaves uninitialised. */
  datatype Leftover = Leftover(fileStateStorageOffset: u32, changeLogOffset: u32)

  /** The header `fs_format` writes. */
  function FormatHeader(sz: Sizes, now: u64, junk: Leftover): (h: OmniHeader)
    requires Fits(sz)
    ensures h.magic == MAGIC && h.formatVersion == FORMAT_VERSION
    ensures h.totalSize == TOTAL_SIZE && h.blockSize == BLOCK_SIZE && h.maxUsers == MAX_USERS
    ensures h.headerSize == sz.header && h.userTableOffset == sz.header
    ensures h.configTimestamp == now
  {
    OmniHeader(MAGIC, FORMAT_VERSION, TOTAL_SIZE, sz.header, BLOCK_SIZE, now, sz.header, MAX_USERS,
               junk.fileStateStorageOffset, junk.changeLogOffset)
  }

  /** The root entry `fs_format` writes after the user table. */
  function RootEntry(): (e: FileEntry)
    ensures e.name == "root" && IsDirectory(e) && e.size == 0
    ensures e.permissions == MODE_0755 && e.owner == "admin" && e.inode == 0
  {
    var e := NewFileEntry("root", DIRECTORY, 0, MODE_0755, "admin", 0);
    TruncateFits("root", 255);
    TruncateFits("admin", 31);
    e
  }

  /** The ledger `fs_format` builds and then drops: blocks `[0, n)` marked used, one at a time
      in increasing order, on a ledger of `total` free blocks. */
  function MarkLeading(total: u64, n: nat): (m: FreeSpace.FreeSpaceManager)
    requires n <= total
    ensures FreeSpace.Valid(m) && m.totalBlocks == total
    ensures forall i :: 0 <= i < total ==> FreeSpace.InMap(m, i) && (FreeSpace.IsFree(m, i) <==> i >= n)
  {
    if n == 0 then FreeSpace.New(total)
    else
      var m := MarkLeading(total, n - 1);
      FreeSpace.MarkUsed(m, n - 1)
  }

  /** The result of `fs_format`: the code, the image written and the ledger built. */
  datatype Formatted = Formatted(code: int, image: Option<Image>, ledger: Option<FreeSpace.FreeSpaceManager>)

  /** `fs_format`. `canOpen` says whether the target could be opened for writing, `now` is the
      clock reading, and `blank` is the default-constructed `UserInfo` written into every slot:
      its fields are never initialised, so no administrator is seeded. No bitmap is written. */
  function Format(canOpen: bool, now: u64, blank: UserInfo, sz: Sizes, junk: Leftover): (r: Formatted)
    requires Fits(sz)
    ensures r.code == SUCCESS || r.code == ERROR_IO_ERROR
    ensures r.code == ERROR_IO_ERROR <==> !canOpen
    ensures r.code == ERROR_IO_ERROR ==> r.image.None? && r.ledger.None?
    ensures r.code == SUCCESS ==>
              && r.image == Some(Image(FormatHeader(sz, now, junk), seq(MAX_USERS, _ => blank), RootEntry()))
              && r.ledger.Some?
              && r.ledger.value.totalBlocks == TOTAL_SIZE / BLOCK_SIZE
              && (forall i :: 0 <= i < TOTAL_SIZE / BLOCK_SIZE ==>
                    FreeSpace.InMap(r.ledger.value, i) && (FreeSpace.IsFree(r.ledger.value, i) <==> i >= UsedBlocks(sz)))
  {
    if !canOpen then Formatted(ERROR_IO_ERROR, None, None)
    else
      var header := FormatHeader(sz, now, junk);
      var image := Image(header, seq(header.maxUsers, _ => blank), RootEntry());
      UsedBlocksCover(sz);
      Formatted(SUCCESS, Some(image), Some(MarkLeading(header.totalSize / header.blockSize, UsedBlocks(sz))))
  }

  // ---------------------------------------------------------------------------
  // fs_init
  // ---------------------------------------------------------------------------

  /** `is_active` is nonzero. */
  predicate Active(u: UserInfo)
  {
    u.isActive != 0
  }

  /** The key a slot is filed under: its username array read as a C string. */
  function SlotKey(u: UserInfo): string
  {
    CStr(u.username)
  }

  /** The keys of the active slots. */
  function ActiveKeys(slots: seq<UserInfo>): set<string>
  {
    set i | 0 <= i < |slots| && Active(slots[i]) :: SlotKey(slots[i])
  }

  /** The first active slot filed under `key`, reading the table front to back. */
  function FirstActive(slots: seq<UserInfo>, key: string): (r: Option<UserInfo>)
    ensures r.Some? ==> r.value in slots && Active(r.value) && SlotKey(r.value) == key
  {
    if slots == [] then None
    else if Active(slots[0]) && SlotKey(slots[0]) == key then Some(slots[0])
    else FirstActive(slots[1..], key)
  }

  /** A name has a first active slot exactly when some active slot carries it. */
  lemma {:induction false} FirstActiveFound(slots: seq<UserInfo>, key: string)
    ensures FirstActive(slots, key).Some? <==> key in ActiveKeys(slots)
  {
    if slots != [] {
      FirstActiveFound(slots[1..], key);
      if key in ActiveKeys(slots) && !(Active(slots[0]) && SlotKey(slots[0]) == key) {
        var i :| 0 <= i < |slots| && Active(slots[i]) && SlotKey(slots[i]) == key;
        assert slots[1..][i - 1] == slots[i];
      }
      if key in ActiveKeys(slots[1..]) {
        var i :| 0 <= i < |slots[1..]| && Active(slots[1..][i]) && SlotKey(slots[1..][i]) == key;
        assert slots[i + 1] == slots[1..][i];
      }
    }
  }

  lemma FirstActiveCons(slots: seq<UserInfo>, key: string)
    requires slots != []
    ensures FirstActive(slots, key) ==
              if Active(slots[0]) && SlotKey(slots[0]) == key then Some(slots[0]) else FirstActive(slots[1..], key)
  {
  }

  /** The table after offering one slot to `insert`: an inactive slot is skipped. */
  function Offer(t: HashTable.Table<UserInfo>, u: UserInfo): (r: HashTable.Table<UserInfo>)
    requires HashTable.Valid(t)
    ensures HashTable.Valid(r) && r.capacity == t.capacity
  {
    if Active(u) then HashTable.Insert(t, SlotKey(u), u).1 else t
  }

  /** An active slot adds its key; an inactive one adds nothing. */
  lemma OfferKeys(t: HashTable.Table<UserInfo>, u: UserInfo)
    requires HashTable.Valid(t)
    ensures HashTable.Keys(Offer(t, u)) == HashTable.Keys(t) + (if Active(u) then {SlotKey(u)} else {})
  {
  }

  /** Only a key not yet present takes the offered slot. */
  lemma OfferGet(t: HashTable.Table<UserInfo>, u: UserInfo, k: string)
    requires HashTable.Valid(t)
    ensures HashTable.Get(Offer(t, u), k) ==
              if k in HashTable.Keys(t) || !Active(u) || k != SlotKey(u) then HashTable.Get(t, k) else Some(u)
  {
  }

  /** The loop of `fs_init` over the slots, offering each in table order. */
  function Hydrate(t: HashTable.Table<UserInfo>, slots: seq<UserInfo>): (r: HashTable.Table<UserInfo>)
    requires HashTable.Valid(t)
    ensures HashTable.Valid(r) && r.capacity == t.capacity
    decreases |slots|
  {
    if slots == [] then t else Hydrate(Offer(t, slots[0]), slots[1..])
  }

  /** `insert` refuses a key already present, so the first active slot for a name wins and a
      later duplicate is dropped; keys already in `t` keep their values. */
  lemma {:induction false} HydrateGet(t: HashTable.Table<UserInfo>, slots: seq<UserInfo>, k: string)
    requires HashTable.Valid(t)
    ensures HashTable.Get(Hydrate(t, slots), k) ==
              if k in HashTable.Keys(t) then HashTable.Get(t, k) else FirstActive(slots, k)
    decreases |slots|
  {
    if slots != [] {
      var t1 := Offer(t, slots[0]);
      OfferKeys(t, slots[0]);
      OfferGet(t, slots[0], k);
      HydrateGet(t1, slots[1..], k);
      FirstActiveCons(slots, k);
    }
  }

  /** The user table `fs_init` builds: one bucket per slot, filled by `Hydrate`. */
  function LoadUsers(slots: seq<UserInfo>): (r: HashTable.Table<UserInfo>)
    ensures r.capacity == |slots|
    ensures |slots| > 0 ==> HashTable.Valid(r)
  {
    if |slots| == 0 then HashTable.New(0) else Hydrate(HashTable.New(|slots|), slots)
  }

  /** The loaded table holds exactly the active slots' names, each mapped to the first active
      slot carrying it. */
  lemma LoadUsersSpec(slots: seq<UserInfo>, k: string)
    ensures k in HashTable.Keys(LoadUsers(slots)) <==> k in ActiveKeys(slots)
    ensures |slots| > 0 ==> HashTable.Get(LoadUsers(slots), k) == FirstActive(slots, k)
  {
    FirstActiveFound(slots, k);
    if |slots| > 0 {
      HydrateGet(HashTable.New(|slots|), slots, k);
    }
  }

  /** A loaded instance: the header, the user table, the namespace root, the block ledger, and
      the (initially empty) session list. */
  datatype FsInstance = FsInstance(
    header: OmniHeader,
    users: HashTable.Table<UserInfo>,
    root: Node,
    fsm: FreeSpace.FreeSpaceManager,
    sessions: seq<SessionInfo>)

  datatype Opened = Opened(code: int, instance: Option<FsInstance>)

  /** An image `fs_init` can read back: as many slots as the header announces and a nonzero
      block size to divide by. */
  predicate Readable(img: Image)
  {
    |img.slots| == img.header.maxUsers && img.header.blockSize > 0
  }

  /** `fs_init`. `canOpen` says whether the image could be opened for reading. The table has
      one bucket per slot; the root is built from the entry after the user table, with a child
      list exactly when that entry says DIRECTORY; the ledger starts all free, whatever
      `fs_format` marked. */
  function Init(canOpen: bool, img: Image): (r: Opened)
    requires Readable(img)
    ensures r.code == SUCCESS || r.code == ERROR_IO_ERROR
    ensures r.code == ERROR_IO_ERROR <==> !canOpen
    ensures r.code == ERROR_IO_ERROR ==> r.instance.None?
    ensures r.code == SUCCESS ==>
              && r.instance.Some?
              && var fs := r.instance.value;
              && fs.header == img.header
              && fs.users.capacity == img.header.maxUsers
              && fs.users == LoadUsers(img.slots)
              && fs.root.entry == img.root && Kids(fs.root) == [] && fs.root.data == []
              && FreeSpace.Valid(fs.fsm)
              && fs.fsm.totalBlocks == img.header.totalSize / img.header.blockSize
              && (forall i :: 0 <= i < fs.fsm.totalBlocks ==> FreeSpace.InMap(fs.fsm, i) && FreeSpace.IsFree(fs.fsm, i))
              && fs.sessions == []
  {
    if !canOpen then Opened(ERROR_IO_ERROR, None)
    else
      var users := LoadUsers(img.slots);
      var fsm := FreeSpace.New(img.header.totalSize / img.header.blockSize);
      Opened(SUCCESS, Some(FsInstance(img.header, users, NewNode(img.root), fsm, [])))
  }

  // ---------------------------------------------------------------------------
  // Formatting, then loading
  // ---------------------------------------------------------------------------

  /** The stored magic is not "OMNIFS01": it agrees on the first seven characters and ends in a
      zero byte instead of '1'. */
  lemma MagicTruncated()
    ensures |MAGIC| == 8 && MAGIC[..7] == "OMNIFS01"[..7]
    ensures MAGIC[7] == NUL && MAGIC != "OMNIFS01"
  {
    assert MAGIC[7] != "OMNIFS01"[7];
  }

  /** A table of copies of one slot has that slot's name as its only active key, or none. */
  lemma {:induction false} UniformActiveKeys(n: nat, u: UserInfo, k: string)
    requires n > 0
    ensures k in ActiveKeys(seq(n, _ => u)) <==> Active(u) && k == SlotKey(u)
  {
    var slots := seq(n, _ => u);
    if Active(u) && k == SlotKey(u) {
      assert Active(slots[0]) && SlotKey(slots[0]) == k;
    }
  }

  /** Loading a freshly formatted image: the header comes back as written, the user table holds
      at most the blank slot's name — an administrator exists only if the uninitialised slot
      happens to read as an active "admin" — the root is an empty directory named "root", and
      every block is free again although the formatter had reserved the image's blocks. */
  lemma FormatThenInit(now: u64, blank: UserInfo, sz: Sizes, junk: Leftover, k: string, b: nat)
    requires Fits(sz)
    ensures Format(true, now, blank, sz, junk).image.Some?
    ensures var img := Format(true, now, blank, sz, junk).image.value;
            && Readable(img)
            && Init(true, img).instance.Some?
            && var fs := Init(true, img).instance.value;
            && fs.header == FormatHeader(sz, now, junk)
            && (k in HashTable.Keys(fs.users) <==> Active(blank) && k == SlotKey(blank))
            && fs.root.entry == RootEntry() && fs.root.children == List([])
            && fs.fsm.totalBlocks == TOTAL_SIZE / BLOCK_SIZE
            && (b < TOTAL_SIZE / BLOCK_SIZE ==> FreeSpace.InMap(fs.fsm, b) && FreeSpace.IsFree(fs.fsm, b))
  {
    var img := Format(true, now, blank, sz, junk).image.value;
    LoadUsersSpec(img.slots, k);
    UniformActiveKeys(MAX_USERS, blank, k);
  }

  /** The formatter reserves the image's blocks in its own ledger and then drops it, so after
      loading, a block the formatter had marked used reads as free. */
  lemma ReservedBlocksForgotten(now: u64, blank: UserInfo, sz: Sizes, junk: Leftover)
    requires Fits(sz) && ImageBytes(sz) > 0
    ensures var r := Format(true, now, blank, sz, junk);
            && r.ledger.Some? && r.image.Some? && Readable(r.image.value)
            && FreeSpace.InMap(r.ledger.value, 0) && !FreeSpace.IsFree(r.ledger.value, 0)
            && var fs := Init(true, r.image.value).instance.value;
            && FreeSpace.InMap(fs.fsm, 0) && FreeSpace.IsFree(fs.fsm, 0)
  {
    UsedBlocksCover(sz);
  }
}
