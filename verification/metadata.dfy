/** Metadata queries and updates (`metadata`): the node census behind the statistics, a third
    path resolver, which skips the first character and looks every component up, even an
    empty one, then stat, chmod, chown, file-system statistics and result-code names. */
module Metadata {
  import opened Base
  import opened OdfTypes
  import opened Paths
  import opened FsNode
  import HashTable
  import ServerText
  import UserManager
  import DirManager
  import FileManager
  import opened NodeCount

  // ---------------------------------------------------------------------------
  // Path resolution
  // ---------------------------------------------------------------------------

  /** The tokens the loop shared by `get_metadata` and `set_permissions` looks up, in order,
      from position `start`: the text up to each '/' or the end of the string, empty tokens
      included; the loop ends at the end of the string, so a '/' in last place adds none.
      Each token is looked up with `getChild` in the node reached so far, and the first one
      that is missing ends the walk. */
  function MetaTokens(path: string, start: nat): seq<string>
    requires start <= |path|
    decreases |path| - start
  {
    if start == |path| then []
    else
      var end := Find(path, SLASH, start);
      [path[start..end]] + (if end == |path| then [] else MetaTokens(path, end + 1))
  }

  /** The loop's tokens are the '/'-separated components with at most one trailing empty
      one dropped. */
  lemma {:induction false} MetaTokensSplit(path: string, start: nat)
    requires start <= |path|
    ensures MetaTokens(path, start) == DropTrailingEmpty(Split(path[start..]))
    decreases |path| - start
  {
    if start == |path| {
      assert Split(path[start..]) == [""];
      assert DropTrailingEmpty([""]) == [];
    } else {
      MetaStep(path, start);
      var end := Find(path, SLASH, start);
      if end < |path| {
        MetaTokensSplit(path, end + 1);
      }
    }
  }

  /** One turn of that loop: the token up to the next '/', then the names after it. */
  lemma MetaStep(path: string, start: nat)
    requires start < |path|
    ensures var end := Find(path, SLASH, start);
            DropTrailingEmpty(Split(path[start..])) ==
              [path[start..end]] + (if end == |path| then [] else DropTrailingEmpty(Split(path[end + 1..])))
  {
    SplitFrom(path, start);
    var end := Find(path, SLASH, start);
    var part := path[start..end];
    if end < |path| {
      var rest := Split(path[end + 1..]);
      assert Split(path[start..]) == [part] + rest;
      DropTrailingEmptyCons(part, rest);
    } else {
      assert part == path[start..];
      assert Split(path[start..]) == [part];
      assert part != [];
      assert DropTrailingEmpty([part]) == [part];
    }
  }

  /** The walk of `get_metadata` and `set_permissions`: the root for "/" and for anything no
      longer than one character; otherwise the components after the first character — which
      is never looked at — with at most one trailing empty component dropped. */
  function Resolve(t: Node, path: string): (r: Option<Loc>)
    ensures |path| <= 1 ==> r == Some([])
    ensures |path| >= 1 ==> r == Walk(t, [], DropTrailingEmpty(Split(path[1..])))
  {
    if path == "/" || |path| <= 1 then
      assert |path| == 1 ==> Split(path[1..]) == [""];
      Some([])
    else
      MetaTokensSplit(path, 1);
      WalkFromRoot(t, DropTrailingEmpty(Split(path[1..])));
      WalkFrom(t, MetaTokens(path, 1))
  }

  /** The first character plays no part: it need not even be '/'. */
  lemma FirstCharacterIgnored(t: Node, c: char, rest: string)
    ensures Resolve(t, [c] + rest) == Resolve(t, "/" + rest)
  {
    assert ([c] + rest)[1..] == rest;
    assert ("/" + rest)[1..] == rest;
  }

  /** One trailing '/' after a clean path changes nothing. */
  lemma TrailingSlashIgnored(t: Node, path: string)
    requires Clean(path)
    ensures Resolve(t, path + "/") == Resolve(t, path)
  {
    var p := path + "/";
    assert p[1..] == path[1..] + "/" + "";
    SplitSep(path[1..], "");
    SplitPlain("");
    CleanComponents(path);
    assert DropTrailingEmpty(Split(path[1..]) + [""]) == Split(path[1..]);
  }

  /** On a clean path all three resolvers of the engine agree. */
  lemma ResolversAgreeOnClean(t: Node, path: string)
    requires Clean(path)
    ensures Resolve(t, path) == DirManager.Resolve(t, path)
    ensures Resolve(t, path) == FileManager.Resolve(t, path)
  {
    CleanComponents(path);
    FileManager.ResolversAgreeOnClean(t, path);
  }

  /** Where the three part: after "//" this resolver asks the root for a child named "" and,
      the root having none, fails; `file_manager` stops at the root; `dir_manager` skips the
      empty component. */
  lemma EmptyComponentLookedUp(t: Node, b: string)
    requires ChildIndex(t, "").None?
    ensures Resolve(t, "//" + b).None?
    ensures FileManager.Resolve(t, "//" + b) == Some([])
    ensures DirManager.Resolve(t, "//" + b) == DirManager.Resolve(t, "/" + b)
  {
    var p := "//" + b;
    assert p[1..] == "/" + b;
    SplitEmptyFirst(b);
    DropTrailingEmptyCons("", Split(b));
    FileManager.ResolveStopsAtEmpty(t, "", b);
    assert ([""] + Split(b))[1..] == Split(b);
    assert ("/" + b)[1..] == b;
  }

  // ---------------------------------------------------------------------------
  // get_metadata and set_permissions
  // ---------------------------------------------------------------------------

  /** `get_metadata`: a copy of the resolved node's entry under the given path, with both
      counters zero; no session check. (A null output pointer is not modelled.) */
  function GetMetadata(t: Node, path: Option<CString>): (r: (int, Option<FileMetadata>))
    ensures r.0 in {SUCCESS, ERROR_INVALID_OPERATION, ERROR_NOT_FOUND}
    ensures r.0 == SUCCESS <==> r.1.Some?
    ensures r.0 == ERROR_INVALID_OPERATION <==> path.None?
    ensures r.0 == ERROR_NOT_FOUND <==> path.Some? && Resolve(t, path.value).None?
    ensures r.1.Some? ==>
              && path.Some? && Resolve(t, path.value).Some?
              && r.1.value.entry == At(t, Resolve(t, path.value).value).entry
              && r.1.value.blocksUsed == 0 && r.1.value.actualSize == 0
              && r.1.value.path <= path.value
              && (|path.value| <= 511 ==> r.1.value.path == path.value)
              && r.1.value.path == Truncate(path.value, 511)
  {
    if path.None? then (ERROR_INVALID_OPERATION, None)
    else match Resolve(t, path.value)
      case None => (ERROR_NOT_FOUND, None)
      case Some(l) => (SUCCESS, Some(NewFileMetadata(path.value, At(t, l).entry)))
  }

  /** The node with a new permission word. */
  function WithPermissions(n: Node, permissions: bv32): (r: Node)
    ensures r.entry.permissions == permissions && r.entry.(permissions := n.entry.permissions) == n.entry
    ensures r.data == n.data && r.children == n.children
  {
    n.(entry := n.entry.(permissions := permissions))
  }

  /** `set_permissions`: no authorization at all; only the permission word of the resolved
      node changes. The session argument is not consulted and so is not modelled. */
  function SetPermissions(t: Node, path: Option<CString>, permissions: bv32): (r: Outcome)
    ensures r.code in {SUCCESS, ERROR_INVALID_OPERATION, ERROR_NOT_FOUND}
    ensures r.code != SUCCESS ==> r.tree == t
    ensures r.code == ERROR_INVALID_OPERATION <==> path.None?
    ensures r.code == ERROR_NOT_FOUND <==> path.Some? && Resolve(t, path.value).None?
    ensures r.code == SUCCESS ==>
              && path.Some? && Resolve(t, path.value).Some?
              && var l := Resolve(t, path.value).value;
              && ValidLoc(r.tree, l) && At(r.tree, l) == WithPermissions(At(t, l), permissions)
              && Size(r.tree) == Size(t)
  {
    if path.None? then Outcome(ERROR_INVALID_OPERATION, t)
    else match Resolve(t, path.value)
      case None => Outcome(ERROR_NOT_FOUND, t)
      case Some(l) =>
        var x := WithPermissions(At(t, l), permissions);
        ReplaceAtAt(t, l, x);
        ReplaceAtSize(t, l, x);
        Outcome(SUCCESS, ReplaceAt(t, l, x))
  }

  /** chmod then stat: the same path still resolves, and the entry read back carries the new
      permission word and is otherwise the old one. */
  lemma SetThenGet(t: Node, path: CString, permissions: bv32)
    requires SetPermissions(t, Some(path), permissions).code == SUCCESS
    ensures var t' := SetPermissions(t, Some(path), permissions).tree;
            var l := Resolve(t, path).value;
            && Resolve(t', path) == Some(l)
            && GetMetadata(t', Some(path)).0 == SUCCESS
            && GetMetadata(t', Some(path)).1.value.entry == At(t, l).entry.(permissions := permissions)
  {
    var l := Resolve(t, path).value;
    var x := WithPermissions(At(t, l), permissions);
    if |path| >= 1 {
      WalkReplaceAt(t, l, x, [], DropTrailingEmpty(Split(path[1..])));
    }
    ReplaceAtAt(t, l, x);
  }

  /** chmod touches nothing off the path to its target. */
  lemma SetPermissionsElsewhere(t: Node, path: CString, permissions: bv32, other: Loc)
    requires SetPermissions(t, Some(path), permissions).code == SUCCESS
    requires ValidLoc(t, other)
    requires var l := Resolve(t, path).value; !(other <= l) && !(l <= other)
    ensures var t' := SetPermissions(t, Some(path), permissions).tree;
            ValidLoc(t', other) && At(t', other) == At(t, other)
  {
    var l := Resolve(t, path).value;
    DisjointReplaced(t, l, WithPermissions(At(t, l), permissions), other);
  }

  // ---------------------------------------------------------------------------
  // set_owner
  // ---------------------------------------------------------------------------

  /** The node with a new owner, cut to the 31 characters the 32-byte field keeps. */
  function WithOwner(n: Node, owner: string): (r: Node)
    ensures r.entry.owner == Truncate(owner, 31) && r.entry.(owner := n.entry.owner) == n.entry
    ensures r.data == n.data && r.children == n.children
  {
    n.(entry := n.entry.(owner := Truncate(owner, 31)))
  }

  /** `set_owner`. The session is the `SessionInfo` itself, not a registry handle, and the node
      is whatever the tree's `find_node_by_path` answers for the path, given as `found`. The
      two failure codes are the literals -2 and -1, the values of PERMISSION_DENIED and
      NOT_FOUND. Permissions are left as they are. */
  function SetOwner(t: Node, users: HashTable.Table<UserInfo>, session: Option<SessionInfo>,
                    found: Option<Loc>, newOwner: string): (r: Outcome)
    requires HashTable.Valid(users)
    requires found.Some? ==> ValidLoc(t, found.value)
    ensures r.code in {SUCCESS, ERROR_PERMISSION_DENIED, ERROR_NOT_FOUND}
    ensures r.code != SUCCESS ==> r.tree == t
    ensures r.code == ERROR_PERMISSION_DENIED <==> session.None? || session.value.user.role != ROLE_ADMIN
    ensures r.code == ERROR_NOT_FOUND <==>
              && session.Some? && session.value.user.role == ROLE_ADMIN
              && (found.None? || newOwner !in HashTable.Keys(users))
    ensures r.code == SUCCESS ==>
              && found.Some?
              && var l := found.value;
              && ValidLoc(r.tree, l) && At(r.tree, l) == WithOwner(At(t, l), newOwner)
              && At(r.tree, l).entry.permissions == At(t, l).entry.permissions
              && Size(r.tree) == Size(t)
  {
    if session.None? then Outcome(ERROR_PERMISSION_DENIED, t)
    else if session.value.user.role != ROLE_ADMIN then Outcome(ERROR_PERMISSION_DENIED, t)
    else if found.None? then Outcome(ERROR_NOT_FOUND, t)
    else if HashTable.Get(users, newOwner).None? then Outcome(ERROR_NOT_FOUND, t)
    else
      var l := found.value;
      var x := WithOwner(At(t, l), newOwner);
      ReplaceAtAt(t, l, x);
      ReplaceAtSize(t, l, x);
      Outcome(SUCCESS, ReplaceAt(t, l, x))
  }

  /** chown hands `file_manager`'s ownership test to the new owner: any registered session of
      a user by that name (short enough to be stored whole) passes it on the node. */
  lemma OwnerGainsFileAccess(t: Node, users: HashTable.Table<UserInfo>, session: Option<SessionInfo>,
                             found: Option<Loc>, newOwner: CString,
                             reg: UserManager.Registry, caller: Option<UserManager.Handle>)
    requires HashTable.Valid(users)
    requires found.Some? ==> ValidLoc(t, found.value)
    requires SetOwner(t, users, session, found, newOwner).code == SUCCESS
    requires |newOwner| <= 31
    requires UserManager.FindSession(reg, caller).Some?
    requires CStr(UserManager.FindSession(reg, caller).value.user.username) == newOwner
    ensures var t' := SetOwner(t, users, session, found, newOwner).tree;
            FileManager.CheckPermissions(reg, caller, At(t', found.value))
  {
    TruncateFits(newOwner, 31);
  }

  /** chown then stat, when `find_node_by_path` agrees with this module's walk on the path:
      the entry read back names the new owner and keeps its permission word. */
  lemma SetOwnerThenGet(t: Node, users: HashTable.Table<UserInfo>, session: Option<SessionInfo>,
                        path: CString, newOwner: string)
    requires HashTable.Valid(users)
    requires Resolve(t, path).Some?
    requires SetOwner(t, users, session, Resolve(t, path), newOwner).code == SUCCESS
    ensures var t' := SetOwner(t, users, session, Resolve(t, path), newOwner).tree;
            var e := At(t, Resolve(t, path).value).entry;
            && GetMetadata(t', Some(path)).0 == SUCCESS
            && GetMetadata(t', Some(path)).1.value.entry == e.(owner := Truncate(newOwner, 31))
  {
    var l := Resolve(t, path).value;
    var x := WithOwner(At(t, l), newOwner);
    if |path| >= 1 {
      WalkReplaceAt(t, l, x, [], DropTrailingEmpty(Split(path[1..])));
    }
    ReplaceAtAt(t, l, x);
  }

  // ---------------------------------------------------------------------------
  // get_stats
  // ---------------------------------------------------------------------------

  /** What one entry adds to the used space: its size field if it is a FILE. */
  function Contribution(e: FileEntry): nat
  {
    if IsFile(e) then e.size else 0
  }

  /** The bytes the size fields of the FILE entries among `es` add up to. */
  function FileBytes(es: seq<FileEntry>): nat
  {
    if es == [] then 0 else Contribution(es[0]) + FileBytes(es[1..])
  }

  lemma {:induction false} FileBytesSnoc(es: seq<FileEntry>, e: FileEntry)
    ensures FileBytes(es + [e]) == FileBytes(es) + Contribution(e)
    decreases |es|
  {
    if es == [] {
      assert [e][1..] == [];
    } else {
      assert (es + [e])[1..] == es[1..] + [e];
      FileBytesSnoc(es[1..], e);
    }
  }

  lemma ModSum(a: nat, b: nat)
    ensures (a % TWO_64 + b) % TWO_64 == (a + b) % TWO_64
  {
    var q := a / TWO_64;
    assert a == q * TWO_64 + a % TWO_64;
    assert (a + b) - (a % TWO_64 + b) == q * TWO_64;
  }

  /** The loop of `get_stats` over the root's children, adding size fields into a 64-bit
      counter that wraps. */
  function UsedFrom(es: seq<FileEntry>, i: nat, acc: u64): (r: u64)
    requires i <= |es|
    ensures r == (acc + FileBytes(es[i..])) % TWO_64
    decreases |es| - i
  {
    if i == |es| then acc
    else
      assert es[i..][1..] == es[i + 1..];
      ModSum(acc + Contribution(es[i]), FileBytes(es[i + 1..]));
      UsedFrom(es, i + 1, (acc + Contribution(es[i])) % TWO_64)
  }

  /** `get_stats`, without the fragmentation figure. Files and directories are counted over
      the whole tree in 32-bit counters; `total_users` is computed and then overwritten with 0;
      the session count is cut to 32 bits; the used space counts the size fields of the
      root's own FILE children only, in a 64-bit counter; the free space is clamped at 0. */
  function GetStats(totalSize: u64, t: Node, sessions: nat): (s: FsStats)
    ensures s.totalSize == totalSize && s.totalUsers == 0
    ensures s.totalFiles == Count(t).files % TWO_32 && s.totalDirectories == Count(t).dirs % TWO_32
    ensures s.activeSessions == sessions % TWO_32
    ensures s.usedSpace == FileBytes(KidEntries(t)) % TWO_64
    ensures s.freeSpace <= s.totalSize
    ensures s.usedSpace <= s.totalSize ==> s.usedSpace + s.freeSpace == s.totalSize
    ensures s.usedSpace >= s.totalSize ==> s.freeSpace == 0
  {
    var census := Count(t);
    var es := KidEntries(t);
    assert es[0..] == es;
    var used := UsedFrom(es, 0, 0);
    var free := if totalSize > used then totalSize - used else 0;
    FsStats(totalSize, used, free, census.files % TWO_32, census.dirs % TWO_32, 0, sessions % TWO_32)
  }

  /** A node replaced by one with the same entry, anywhere below the root, leaves the entries
      of the root's children as they were. */
  lemma {:induction false} ReplaceAtKidEntries(t: Node, l: Loc, x: Node)
    requires ValidLoc(t, l) && |l| > 0 && x.entry == At(t, l).entry
    ensures KidEntries(ReplaceAt(t, l, x)) == KidEntries(t)
    decreases |l|
  {
    var p := Up(l);
    var y := WithKid(At(t, p), Last(l), x);
    if |p| == 0 {
      assert KidEntries(y) == KidEntries(t);
    } else {
      ReplaceAtKidEntries(t, p, y);
    }
  }

  /** Linking a node below a directory changes the used space only when the directory is the
      root itself, and then by what the new entry adds. */
  lemma AppendAtFileBytes(t: Node, q: Loc, c: Node)
    requires ValidLoc(t, q) && IsDirectory(At(t, q).entry) && At(t, q).children.List?
    ensures FileBytes(KidEntries(AppendAt(t, q, c))) ==
            FileBytes(KidEntries(t)) + (if q == [] then Contribution(c.entry) else 0)
  {
    var x := AddChild(At(t, q), c);
    if q == [] {
      assert KidEntries(x) == KidEntries(t) + [c.entry];
      FileBytesSnoc(KidEntries(t), c.entry);
    } else {
      ReplaceAtKidEntries(t, q, x);
    }
  }

  /** Linking a node that is not a FILE with a size leaves the used space as it was. */
  lemma AppendKeepsBytes(t: Node, q: Loc, c: Node, t': Node)
    requires ValidLoc(t, q) && IsDirectory(At(t, q).entry) && At(t, q).children.List?
    requires Contribution(c.entry) == 0 && t' == AppendAt(t, q, c)
    ensures FileBytes(KidEntries(t')) == FileBytes(KidEntries(t))
  {
    AppendAtFileBytes(t, q, c);
  }

  /** Two trees whose censuses differ by `d` and whose root children carry the same used
      bytes give statistics that differ in the two counts only. */
  lemma StatsShift(totalSize: u64, t: Node, t': Node, sessions: nat, d: Census)
    requires Count(t') == Plus(Count(t), d)
    requires FileBytes(KidEntries(t')) == FileBytes(KidEntries(t))
    ensures GetStats(totalSize, t', sessions) ==
              GetStats(totalSize, t, sessions).(totalFiles := (Count(t).files + d.files) % TWO_32,
                                                totalDirectories := (Count(t).dirs + d.dirs) % TWO_32)
  {
  }

  /** A new file adds one to the file census and nothing to the used space: `file_create`
      leaves the size field at 0 whatever the payload. With `StatsShift` this fixes what
      `get_stats` reports afterwards. */
  lemma StatsAfterFileCreate(t: Node, nextIndex: nat, reg: UserManager.Registry,
                             session: Option<UserManager.Handle>, path: CString,
                             data: Option<seq<char>>, size: nat)
    requires data.Some? ==> size <= |data.value|
    requires FileManager.FileCreate(t, nextIndex, reg, session, Some(path), data, size).code == SUCCESS
    requires At(t, FileManager.Resolve(t, SplitLast(path).0).value).children.List?
    ensures var t' := FileManager.FileCreate(t, nextIndex, reg, session, Some(path), data, size).tree;
            Count(t') == Plus(Count(t), Census(1, 0)) &&
            FileBytes(KidEntries(t')) == FileBytes(KidEntries(t))
  {
    var t' := FileManager.FileCreate(t, nextIndex, reg, session, Some(path), data, size).tree;
    var name := SplitLast(path).1;
    var p := FileManager.Resolve(t, SplitLast(path).0).value;
    var owner := CStr(UserManager.FindSession(reg, session).value.user.username);
    var c := FileManager.NewFile(name, owner, nextIndex, FileManager.Payload(data, size));
    assert t' == AppendAt(t, p, c);
    assert Count(c) == Census(1, 0);
    AppendAtCount(t, p, c);
    AppendKeepsBytes(t, p, c, t');
  }

  /** A new directory adds one to the directory census and nothing to the used space. */
  lemma StatsAfterDirCreate(t: Node, reg: UserManager.Registry, session: Option<UserManager.Handle>,
                            path: CString)
    requires DirManager.DirCreate(t, reg, session, Some(path)).code == SUCCESS
    requires IsDirectory(At(t, DirManager.Resolve(t, SplitLast(path).0).value).entry)
    requires At(t, DirManager.Resolve(t, SplitLast(path).0).value).children.List?
    ensures Count(DirManager.DirCreate(t, reg, session, Some(path)).tree) == Plus(Count(t), Census(0, 1))
    ensures FileBytes(KidEntries(DirManager.DirCreate(t, reg, session, Some(path)).tree)) == FileBytes(KidEntries(t))
  {
    var t' := DirManager.DirCreate(t, reg, session, Some(path)).tree;
    var name := SplitLast(path).1;
    var p := DirManager.Resolve(t, SplitLast(path).0).value;
    var owner := CStr(UserManager.FindSession(reg, session).value.user.username);
    var c := NewNode(DirManager.DirEntry(name, owner));
    assert t' == AppendAt(t, p, c);
    assert Count(t') == Plus(Count(t), Census(0, 1)) by {
      assert Count(c) == Census(0, 1);
      AppendAtCount(t, p, c);
    }
    assert FileBytes(KidEntries(t')) == FileBytes(KidEntries(t)) by {
      AppendKeepsBytes(t, p, c, t');
    }
  }

  // ---------------------------------------------------------------------------
  // get_error_message
  // ---------------------------------------------------------------------------

  /** The names `get_error_message` gives, in the order of `ErrorCodes()`. */
  function MessageNames(): (names: seq<string>)
    ensures |names| == |ErrorCodes()|
  {
    ["SUCCESS", "ERROR_NOT_FOUND", "ERROR_PERMISSION_DENIED", "ERROR_IO_ERROR",
     "ERROR_INVALID_PATH", "ERROR_FILE_EXISTS", "ERROR_NO_SPACE", "ERROR_INVALID_CONFIG",
     "ERROR_NOT_IMPLEMENTED", "ERROR_INVALID_SESSION", "ERROR_DIRECTORY_NOT_EMPTY",
     "ERROR_INVALID_OPERATION"]
  }

  /** `get_error_message`: the enumerator's own name, or "UNKNOWN_ERROR". */
  function GetErrorMessage(code: int): (name: string)
    ensures code !in ErrorCodes() ==> name == "UNKNOWN_ERROR"
    ensures forall i :: 0 <= i < |ErrorCodes()| && code == ErrorCodes()[i] ==> name == MessageNames()[i]
  {
    if code == SUCCESS then "SUCCESS"
    else if code == ERROR_NOT_FOUND then "ERROR_NOT_FOUND"
    else if code == ERROR_PERMISSION_DENIED then "ERROR_PERMISSION_DENIED"
    else if code == ERROR_IO_ERROR then "ERROR_IO_ERROR"
    else if code == ERROR_INVALID_PATH then "ERROR_INVALID_PATH"
    else if code == ERROR_FILE_EXISTS then "ERROR_FILE_EXISTS"
    else if code == ERROR_NO_SPACE then "ERROR_NO_SPACE"
    else if code == ERROR_INVALID_CONFIG then "ERROR_INVALID_CONFIG"
    else if code == ERROR_NOT_IMPLEMENTED then "ERROR_NOT_IMPLEMENTED"
    else if code == ERROR_INVALID_SESSION then "ERROR_INVALID_SESSION"
    else if code == ERROR_DIRECTORY_NOT_EMPTY then "ERROR_DIRECTORY_NOT_EMPTY"
    else if code == ERROR_INVALID_OPERATION then "ERROR_INVALID_OPERATION"
    else "UNKNOWN_ERROR"
  }

  /** The position of the first occurrence of `name` in `names` from `k` on. */
  function IndexFrom(names: seq<string>, name: string, k: nat): (r: Option<nat>)
    requires k <= |names|
    ensures r.Some? ==> k <= r.value < |names| && names[r.value] == name
    ensures r.Some? ==> forall j :: k <= j < r.value ==> names[j] != name
    ensures r.None? ==> forall j :: k <= j < |names| ==> names[j] != name
    decreases |names| - k
  {
    if k == |names| then None else if names[k] == name then Some(k) else IndexFrom(names, name, k + 1)
  }

  /** The code a message names, read back from the table; none for "UNKNOWN_ERROR" or any
      other text. */
  function CodeOfMessage(name: string): (code: Option<int>)
    ensures code.Some? ==> code.value in ErrorCodes() && GetErrorMessage(code.value) == name
    ensures name == "UNKNOWN_ERROR" ==> code.None?
  {
    match IndexFrom(MessageNames(), name, 0)
    case None => None
    case Some(i) => Some(ErrorCodes()[i])
  }

  /** Each of the twelve codes can be read back from its message. */
  lemma MessageRoundTrip(code: int)
    requires code in ErrorCodes()
    ensures CodeOfMessage(GetErrorMessage(code)) == Some(code)
  {
    var codes, names := ErrorCodes(), MessageNames();
    var i :| 0 <= i < |codes| && codes[i] == code;
    assert forall j, k :: 0 <= j < k < |names| ==> names[j] != names[k];
    var r := IndexFrom(names, names[i], 0);
    assert r == Some(i);
  }

  /** The server's own names agree with these on every code but FILE_EXISTS, and the two spell
      "unknown" differently. */
  lemma ServerNamesDiffer(code: int)
    ensures code in ErrorCodes() && code != ERROR_FILE_EXISTS ==> ServerText.ErrorToString(code) == GetErrorMessage(code)
    ensures code == ERROR_FILE_EXISTS ==> GetErrorMessage(code) == "ERROR_FILE_EXISTS" && ServerText.ErrorToString(code) == "ERROR_EXISTS"
    ensures code !in ErrorCodes() ==> GetErrorMessage(code) == "UNKNOWN_ERROR" && ServerText.ErrorToString(code) == "ERROR_UNKNOWN"
  {
  }
}
