/** The file operations (`file_manager`): a path resolver of its own, which stops at the first
    empty component instead of skipping it, an ownership-only permission check, and create,
    read, edit, delete, truncate, exists and rename. The instance's inode counter, which
    `file_create` draws from, is passed in and handed back. */
module FileManager {
  import opened Base
  import opened OdfTypes
  import opened Paths
  import opened FsNode
  import UserManager
  import DirManager

  // ---------------------------------------------------------------------------
  // Construction
  // ---------------------------------------------------------------------------

  /** The root the constructor builds when the instance has none. */
  function DefaultRoot(): (n: Node)
    ensures n.entry.name == "/" && n.entry.owner == "admin" && n.entry.permissions == MODE_0755
    ensures IsDirectory(n.entry) && n.children.List? && Kids(n) == [] && n.data == []
  {
    TruncateFits("/", 255);
    TruncateFits("admin", 31);
    NewNode(NewFileEntry("/", DIRECTORY, 0, MODE_0755, "admin", 0))
  }

  /** The constructor: a missing root is replaced by an empty "/" directory owned by "admin",
      and an inode counter still at 0 is moved to 1, so the first file gets inode 1. */
  function Init(root: Option<Node>, nextIndex: nat): (r: (Node, nat))
    ensures root.Some? ==> r.0 == root.value
    ensures root.None? ==> r.0 == DefaultRoot()
    ensures r.1 >= 1 && (nextIndex != 0 ==> r.1 == nextIndex)
  {
    (if root.Some? then root.value else DefaultRoot(), if nextIndex == 0 then 1 else nextIndex)
  }

  // ---------------------------------------------------------------------------
  // Path resolution
  // ---------------------------------------------------------------------------

  /** The names the loop of `resolve_path` looks up, in order, from position `start`: the
      text up to each '/' or the end of the string, until the first empty token, which ends
      the loop with the node reached so far. Each name is looked up with `getChild`, and the
      first one that is missing ends the walk. */
  function FileTokens(path: string, start: nat): seq<string>
    requires start <= |path|
    decreases |path| - start
  {
    if start == |path| then []
    else
      var end := Find(path, SLASH, start);
      var part := path[start..end];
      if part == [] then [] else [part] + (if end == |path| then [] else FileTokens(path, end + 1))
  }

  /** The loop's names are the '/'-separated components before the first empty one. */
  lemma {:induction false} FileTokensSplit(path: string, start: nat)
    requires start <= |path|
    ensures FileTokens(path, start) == TakeUntilEmpty(Split(path[start..]))
    decreases |path| - start
  {
    if start == |path| {
      assert Split(path[start..]) == [""];
      assert TakeUntilEmpty([""]) == [];
    } else {
      FileStep(path, start);
      var end := Find(path, SLASH, start);
      if end < |path| && start < end {
        FileTokensSplit(path, end + 1);
      }
    }
  }

  /** One turn of that loop: the token up to the next '/'; an empty one ends the names. */
  lemma FileStep(path: string, start: nat)
    requires start < |path|
    ensures var end := Find(path, SLASH, start);
            var part := path[start..end];
            TakeUntilEmpty(Split(path[start..])) ==
              if part == [] then [] else [part] + (if end == |path| then [] else TakeUntilEmpty(Split(path[end + 1..])))
  {
    SplitFrom(path, start);
    var end := Find(path, SLASH, start);
    var part := path[start..end];
    var rest := if end == |path| then [] else Split(path[end + 1..]);
    assert Split(path[start..]) == [part] + rest by {
      if end == |path| {
        assert part == path[start..];
      }
    }
    TakeUntilEmptyCons(part, rest);
  }

  /** `resolve_path`: null unless the path starts with '/'; otherwise the walk from the root
      over the components before the first empty one. */
  function Resolve(t: Node, path: string): (r: Option<Loc>)
    ensures |path| == 0 || path[0] != SLASH ==> r.None?
    ensures |path| > 0 && path[0] == SLASH ==> r == Walk(t, [], TakeUntilEmpty(Split(path[1..])))
  {
    if |path| == 0 || path[0] != SLASH then None
    else
      FileTokensSplit(path, 1);
      Walk(t, [], FileTokens(path, 1))
  }

  /** A doubled slash ends resolution: "/a//b" names whatever "/a" names, and "//b" the root. */
  lemma ResolveStopsAtEmpty(t: Node, a: string, b: string)
    ensures Resolve(t, "/" + a + "//" + b) == Resolve(t, "/" + a)
    ensures Resolve(t, "//" + b) == Some([])
  {
    var p := "/" + a + "//" + b;
    assert p[1..] == a + "//" + b;
    assert ("/" + a)[1..] == a;
    SplitDoubleSlash(a, b);
    TakeUntilEmptyStops(Split(a), Split(b));
    var q := "//" + b;
    assert q[1..] == "/" + b;
    SplitEmptyFirst(b);
  }

  /** On a clean path the two managers' resolvers agree; they part only where a component is
      empty. */
  lemma ResolversAgreeOnClean(t: Node, path: string)
    requires Clean(path)
    ensures Resolve(t, path) == DirManager.Resolve(t, path)
  {
    CleanComponents(path);
  }

  /** The components of a clean path are those its parent path yields to this resolver,
      followed by its name, which is non-empty. */
  lemma CleanSplitLast(path: string)
    requires Clean(path)
    ensures var (parentPath, name) := SplitLast(path);
            && |parentPath| > 0 && parentPath[0] == SLASH && name != []
            && TakeUntilEmpty(Split(path[1..])) == TakeUntilEmpty(Split(parentPath[1..])) + [name]
  {
    var (parentPath, name) := SplitLast(path);
    SplitLastComponents(path);
    CleanComponents(path);
    if path == "/" + name {
      CleanBelowRoot(path);
    } else {
      CleanBelowParent(path);
    }
  }

  lemma CleanBelowRoot(path: string)
    requires Clean(path) && path == "/" + SplitLast(path).1
    ensures SplitLast(path).0 == "/" && SplitLast(path).1 != []
    ensures TakeUntilEmpty(Split(path[1..])) == TakeUntilEmpty(Split(SplitLast(path).0[1..])) + [SplitLast(path).1]
  {
    var name := SplitLast(path).1;
    assert path[1..] == name;
    SplitPlain(name);
    CleanComponents(path);
    assert Split(""[..]) == [""];
  }

  lemma CleanBelowParent(path: string)
    requires Clean(path) && path != "/" + SplitLast(path).1
    ensures SplitLast(path).1 != []
    ensures TakeUntilEmpty(Split(path[1..])) == TakeUntilEmpty(Split(SplitLast(path).0[1..])) + [SplitLast(path).1]
  {
    var (parentPath, name) := SplitLast(path);
    var parts := Split(path[1..]);
    SplitLastComponents(path);
    CleanComponents(path);
    var pre := Split(parentPath[1..]);
    assert parts == pre + [name];
    assert name == parts[|parts| - 1];
    assert forall i :: 0 <= i < |pre| ==> pre[i] == parts[i];
    TakeUntilEmptyAppend(pre, []);
    assert pre + [] == pre;
  }

  // ---------------------------------------------------------------------------
  // Permissions
  // ---------------------------------------------------------------------------

  /** `check_permissions` for a non-null node: a registered administrator, or a registered
      caller whose name is the node's owner. The mode bits play no part. */
  function CheckPermissions(reg: UserManager.Registry, session: Option<UserManager.Handle>, n: Node): (ok: bool)
    ensures ok <==> UserManager.FindSession(reg, session).Some?
                    && (UserManager.FindSession(reg, session).value.user.role == ROLE_ADMIN
                        || CStr(UserManager.FindSession(reg, session).value.user.username) == CStr(n.entry.owner))
  {
    if session.None? then false
    else
      var (code, info) := UserManager.GetSessionInfo(reg, session);
      if code != SUCCESS then false
      else if info.value.user.role == ROLE_ADMIN then true
      else CStr(info.value.user.username) == CStr(n.entry.owner)
  }

  /** Changing a node's mode never changes who may act on it. */
  lemma ModeIgnored(reg: UserManager.Registry, session: Option<UserManager.Handle>, n: Node, mode: bv32)
    ensures CheckPermissions(reg, session, n.(entry := n.entry.(permissions := mode)))
            == CheckPermissions(reg, session, n)
  {
  }

  // ---------------------------------------------------------------------------
  // Creation and reading
  // ---------------------------------------------------------------------------

  /** What `file_create` hands back: the code, the tree, and the instance's inode counter. */
  datatype Created = Created(code: int, tree: Node, nextIndex: nat)

  /** The bytes `data.assign(data, data + size)` stores: nothing for a null pointer. */
  function Payload(data: Option<seq<char>>, size: nat): (p: seq<char>)
    requires data.Some? ==> size <= |data.value|
    ensures data.Some? ==> p == data.value[..size]
    ensures data.None? ==> p == []
  {
    if data.Some? && size > 0 then data.value[..size] else []
  }

  /** The node `file_create` links in: a FILE entry with mode 0644, size field 0, the caller as
      owner and the counter (cut to 32 bits) as inode, holding the payload. */
  function NewFile(name: string, owner: string, index: nat, payload: seq<char>): (n: Node)
    ensures IsFile(n.entry) && n.children.NoList? && n.data == payload
    ensures n.entry.permissions == MODE_0644 && n.entry.size == 0 && n.entry.inode == index % TWO_32
    ensures n.entry.name == Truncate(name, 255) && n.entry.owner == Truncate(owner, 31)
  {
    NewNode(NewFileEntry(name, FILE, 0, MODE_0644, owner, index % TWO_32)).(data := payload)
  }

  /** The checks `file_create` makes before asking about ownership all pass: a registered
      session, a path whose last name is not empty, and a parent path naming a directory. */
  predicate CreateParent(t: Node, reg: UserManager.Registry, session: Option<UserManager.Handle>, path: Option<CString>)
  {
    && path.Some? && UserManager.FindSession(reg, session).Some?
    && SplitLast(path.value).1 != [] && Resolve(t, SplitLast(path.value).0).Some?
    && IsDirectory(At(t, Resolve(t, SplitLast(path.value).0).value).entry)
  }

  /** `file_create`. Each error code is returned exactly when its check is the first to fail,
      in the order the code makes them. Unlike `dir_create` it does not demand a leading '/':
      a path without one fails to resolve and gives NOT_FOUND. The counter moves only on
      success. */
  function FileCreate(t: Node, nextIndex: nat, reg: UserManager.Registry, session: Option<UserManager.Handle>,
                      path: Option<CString>, data: Option<seq<char>>, size: nat): (r: Created)
    requires data.Some? ==> size <= |data.value|
    ensures r.code in {SUCCESS, ERROR_INVALID_OPERATION, ERROR_PERMISSION_DENIED, ERROR_NOT_FOUND, ERROR_FILE_EXISTS}
    ensures r.code != SUCCESS ==> r.tree == t && r.nextIndex == nextIndex
    ensures r.code == ERROR_INVALID_OPERATION <==>
              session.None? || path.None?
              || (UserManager.FindSession(reg, session).Some? && SplitLast(path.value).1 == [])
    ensures r.code == ERROR_NOT_FOUND <==>
              && session.Some? && path.Some? && UserManager.FindSession(reg, session).Some?
              && SplitLast(path.value).1 != []
              && (Resolve(t, SplitLast(path.value).0).None?
                  || !IsDirectory(At(t, Resolve(t, SplitLast(path.value).0).value).entry))
    ensures r.code == ERROR_PERMISSION_DENIED <==>
              && session.Some? && path.Some?
              && (|| UserManager.FindSession(reg, session).None?
                  || (CreateParent(t, reg, session, path)
                      && !CheckPermissions(reg, session, At(t, Resolve(t, SplitLast(path.value).0).value))))
    ensures r.code == ERROR_FILE_EXISTS <==>
              && CreateParent(t, reg, session, path)
              && var p := Resolve(t, SplitLast(path.value).0).value;
              && CheckPermissions(reg, session, At(t, p)) && ChildIndex(At(t, p), SplitLast(path.value).1).Some?
    ensures r.code == SUCCESS ==>
              && path.Some? && UserManager.FindSession(reg, session).Some?
              && var (parentPath, name) := SplitLast(path.value);
              && Resolve(t, parentPath).Some?
              && var p := Resolve(t, parentPath).value;
              && IsDirectory(At(t, p).entry) && CheckPermissions(reg, session, At(t, p))
              && ChildIndex(At(t, p), name).None?
              && var owner := CStr(UserManager.FindSession(reg, session).value.user.username);
              && r.tree == AppendAt(t, p, NewFile(name, owner, nextIndex, Payload(data, size)))
              && r.nextIndex == nextIndex + 1
  {
    if session.None? || path.None? then Created(ERROR_INVALID_OPERATION, t, nextIndex)
    else
      var (code, info) := UserManager.GetSessionInfo(reg, session);
      if code != SUCCESS then Created(ERROR_PERMISSION_DENIED, t, nextIndex)
      else
        var (parentPath, name) := SplitLast(path.value);
        if name == [] then Created(ERROR_INVALID_OPERATION, t, nextIndex)
        else match Resolve(t, parentPath)
          case None => Created(ERROR_NOT_FOUND, t, nextIndex)
          case Some(p) =>
            var parent := At(t, p);
            if !IsDirectory(parent.entry) then Created(ERROR_NOT_FOUND, t, nextIndex)
            else if !CheckPermissions(reg, session, parent) then Created(ERROR_PERMISSION_DENIED, t, nextIndex)
            else if GetChild(parent, name).Some? then Created(ERROR_FILE_EXISTS, t, nextIndex)
            else
              var node := NewFile(name, CStr(info.value.user.username), nextIndex, Payload(data, size));
              Created(SUCCESS, AppendAt(t, p, node), nextIndex + 1)
  }

  /** `file_read`: the node's bytes, for a path that resolves to a FILE; no session check.
      (Null output pointers are not modelled.) */
  function FileRead(t: Node, path: CString): (r: (int, seq<char>))
    ensures r.0 in {SUCCESS, ERROR_NOT_FOUND}
    ensures r.0 == SUCCESS <==> Resolve(t, path).Some? && IsFile(At(t, Resolve(t, path).value).entry)
    ensures r.0 == SUCCESS ==> r.1 == At(t, Resolve(t, path).value).data
    ensures r.0 != SUCCESS ==> r.1 == []
  {
    match Resolve(t, path)
    case None => (ERROR_NOT_FOUND, [])
    case Some(l) =>
      var node := At(t, l);
      if !IsFile(node.entry) then (ERROR_NOT_FOUND, []) else (SUCCESS, node.data)
  }

  /** Where a file made by a successful `file_create` on a clean path lands: last among its
      parent's children, reachable by the same path. */
  lemma CreateLands(t: Node, nextIndex: nat, reg: UserManager.Registry, session: Option<UserManager.Handle>,
                    path: CString, data: Option<seq<char>>, size: nat)
    requires data.Some? ==> size <= |data.value|
    requires FileCreate(t, nextIndex, reg, session, Some(path), data, size).code == SUCCESS
    requires Clean(path) && |SplitLast(path).1| <= 255
    requires At(t, Resolve(t, SplitLast(path).0).value).children.List?
    ensures var r := FileCreate(t, nextIndex, reg, session, Some(path), data, size);
            var p := Resolve(t, SplitLast(path).0).value;
            && Resolve(r.tree, path) == Some(p + [|Kids(At(t, p))|])
            && At(r.tree, p + [|Kids(At(t, p))|])
               == NewFile(SplitLast(path).1, CStr(UserManager.FindSession(reg, session).value.user.username),
                          nextIndex, Payload(data, size))
  {
    var (parentPath, name) := SplitLast(path);
    var p := Resolve(t, parentPath).value;
    var owner := CStr(UserManager.FindSession(reg, session).value.user.username);
    var c := NewFile(name, owner, nextIndex, Payload(data, size));
    CleanSplitLast(path);
    SplitLastNulFree(path);
    TruncateFits(name, 255);
    WalkToAppended(t, p, c, TakeUntilEmpty(Split(parentPath[1..])), name);
  }

  /** Reading back a file just created on a clean path gives exactly the bytes written. (Its
      name must fit the 255-character field: a longer one is stored cut short.) */
  lemma CreateThenRead(t: Node, nextIndex: nat, reg: UserManager.Registry, session: Option<UserManager.Handle>,
                       path: CString, data: Option<seq<char>>, size: nat)
    requires data.Some? ==> size <= |data.value|
    requires FileCreate(t, nextIndex, reg, session, Some(path), data, size).code == SUCCESS
    requires Clean(path) && |SplitLast(path).1| <= 255
    requires At(t, Resolve(t, SplitLast(path).0).value).children.List?
    ensures FileRead(FileCreate(t, nextIndex, reg, session, Some(path), data, size).tree, path)
            == (SUCCESS, Payload(data, size))
  {
    CreateLands(t, nextIndex, reg, session, path, data, size);
  }

  /** Creating the same clean path twice: the second call finds the first file and reports
      FILE_EXISTS, leaving tree and counter alone. */
  lemma CreateTwice(t: Node, nextIndex: nat, reg: UserManager.Registry, session: Option<UserManager.Handle>,
                    path: CString, data: Option<seq<char>>, size: nat)
    requires data.Some? ==> size <= |data.value|
    requires FileCreate(t, nextIndex, reg, session, Some(path), data, size).code == SUCCESS
    requires Clean(path) && |SplitLast(path).1| <= 255
    requires At(t, Resolve(t, SplitLast(path).0).value).children.List?
    ensures var r := FileCreate(t, nextIndex, reg, session, Some(path), data, size);
            FileCreate(r.tree, r.nextIndex, reg, session, Some(path), data, size)
            == Created(ERROR_FILE_EXISTS, r.tree, r.nextIndex)
  {
    var r := FileCreate(t, nextIndex, reg, session, Some(path), data, size);
    var (parentPath, name) := SplitLast(path);
    var p := Resolve(t, parentPath).value;
    var owner := CStr(UserManager.FindSession(reg, session).value.user.username);
    var c := NewFile(name, owner, nextIndex, Payload(data, size));
    var x := AddChild(At(t, p), c);
    CleanSplitLast(path);
    SplitLastNulFree(path);
    TruncateFits(name, 255);
    WalkReplaceAt(t, p, x, [], TakeUntilEmpty(Split(parentPath[1..])));
    AppendedIndex(At(t, p), c, name);
    assert Resolve(r.tree, parentPath) == Some(p);
    assert At(r.tree, p) == x;
  }

  // ---------------------------------------------------------------------------
  // Editing, truncating, deleting, existence
  // ---------------------------------------------------------------------------

  /** The bytes after `file_edit`: grown with zero bytes to `index + |w|` when shorter, then
      `w` copied in at `index`. Since `index` is at most the old length, every grown byte is
      overwritten. */
  function Overwrite(d: seq<char>, index: nat, w: seq<char>): (r: seq<char>)
    requires index <= |d|
    ensures |r| == if index + |w| > |d| then index + |w| else |d|
    ensures forall i :: 0 <= i < |r| ==> r[i] == if index <= i < index + |w| then w[i - index] else d[i]
  {
    var grown := if index + |w| > |d| then d + seq(index + |w| - |d|, _ => NUL) else d;
    grown[..index] + w + grown[index + |w|..]
  }

  /** The edit the test program makes: "Hello, OFS!" overwritten at 7 with "World!". */
  lemma OverwriteExample()
    ensures Overwrite("Hello, OFS!", 7, "World!") == "Hello, World!"
  {
    var r := Overwrite("Hello, OFS!", 7, "World!");
    assert |r| == 13;
    assert forall i :: 0 <= i < 13 ==> r[i] == "Hello, World!"[i];
  }

  /** `file_edit`: `size` bytes of `data` written at `index` into the node's bytes. A path
      that does not resolve is reported as PERMISSION_DENIED, not NOT_FOUND; the node's type is
      not looked at. */
  function FileEdit(t: Node, reg: UserManager.Registry, session: Option<UserManager.Handle>, path: CString,
                    data: seq<char>, size: nat, index: u32): (r: Outcome)
    requires size <= |data|
    ensures r.code in {SUCCESS, ERROR_PERMISSION_DENIED, ERROR_INVALID_OPERATION}
    ensures r.code != SUCCESS ==> r.tree == t
    ensures r.code == ERROR_PERMISSION_DENIED <==>
              Resolve(t, path).None? || !CheckPermissions(reg, session, At(t, Resolve(t, path).value))
    ensures r.code == ERROR_INVALID_OPERATION <==>
              && Resolve(t, path).Some? && CheckPermissions(reg, session, At(t, Resolve(t, path).value))
              && index > |At(t, Resolve(t, path).value).data|
    ensures r.code == SUCCESS ==>
              && Resolve(t, path).Some?
              && var l := Resolve(t, path).value;
              && index <= |At(t, l).data|
              && r.tree == ReplaceAt(t, l, At(t, l).(data := Overwrite(At(t, l).data, index, data[..size])))
  {
    match Resolve(t, path)
    case None => Outcome(ERROR_PERMISSION_DENIED, t)
    case Some(l) =>
      var node := At(t, l);
      if !CheckPermissions(reg, session, node) then Outcome(ERROR_PERMISSION_DENIED, t)
      else if index > |node.data| then Outcome(ERROR_INVALID_OPERATION, t)
      else Outcome(SUCCESS, ReplaceAt(t, l, node.(data := Overwrite(node.data, index, data[..size]))))
  }

  /** Replacing a node's bytes keeps every path resolving where it did and the node's entry. */
  lemma ReplaceDataKeepsPath(t: Node, path: CString, d: seq<char>)
    requires Resolve(t, path).Some?
    ensures var l := Resolve(t, path).value;
            var t' := ReplaceAt(t, l, At(t, l).(data := d));
            Resolve(t', path) == Some(l) && At(t', l) == At(t, l).(data := d)
  {
    var l := Resolve(t, path).value;
    var x := At(t, l).(data := d);
    WalkReplaceAt(t, l, x, [], TakeUntilEmpty(Split(path[1..])));
    ReplaceAtAt(t, l, x);
  }

  /** After a successful edit of a file, reading it gives the overwritten bytes. */
  lemma EditThenRead(t: Node, reg: UserManager.Registry, session: Option<UserManager.Handle>, path: CString,
                     data: seq<char>, size: nat, index: u32)
    requires size <= |data|
    requires FileEdit(t, reg, session, path, data, size, index).code == SUCCESS
    requires IsFile(At(t, Resolve(t, path).value).entry)
    ensures FileRead(FileEdit(t, reg, session, path, data, size, index).tree, path)
            == (SUCCESS, Overwrite(FileRead(t, path).1, index, data[..size]))
  {
    var l := Resolve(t, path).value;
    ReplaceDataKeepsPath(t, path, Overwrite(At(t, l).data, index, data[..size]));
  }

  /** `file_truncate`: the node's bytes are dropped; its entry, size field included, stays. */
  function FileTruncate(t: Node, reg: UserManager.Registry, session: Option<UserManager.Handle>, path: CString): (r: Outcome)
    ensures r.code in {SUCCESS, ERROR_PERMISSION_DENIED}
    ensures r.code != SUCCESS ==> r.tree == t
    ensures r.code == ERROR_PERMISSION_DENIED <==>
              Resolve(t, path).None? || !CheckPermissions(reg, session, At(t, Resolve(t, path).value))
    ensures r.code == SUCCESS ==>
              && Resolve(t, path).Some?
              && var l := Resolve(t, path).value;
              && r.tree == ReplaceAt(t, l, At(t, l).(data := []))
  {
    match Resolve(t, path)
    case None => Outcome(ERROR_PERMISSION_DENIED, t)
    case Some(l) =>
      var node := At(t, l);
      if !CheckPermissions(reg, session, node) then Outcome(ERROR_PERMISSION_DENIED, t)
      else Outcome(SUCCESS, ReplaceAt(t, l, node.(data := [])))
  }

  /** After truncating a file, it reads back empty and its entry is as it was. */
  lemma TruncateThenRead(t: Node, reg: UserManager.Registry, session: Option<UserManager.Handle>, path: CString)
    requires FileTruncate(t, reg, session, path).code == SUCCESS
    requires IsFile(At(t, Resolve(t, path).value).entry)
    ensures var t' := FileTruncate(t, reg, session, path).tree;
            && FileRead(t', path) == (SUCCESS, [])
            && ValidLoc(t', Resolve(t, path).value)
            && At(t', Resolve(t, path).value).entry == At(t, Resolve(t, path).value).entry
  {
    ClearedFileReadsEmpty(t, path);
  }

  lemma ClearedFileReadsEmpty(t: Node, path: CString)
    requires Resolve(t, path).Some? && IsFile(At(t, Resolve(t, path).value).entry)
    ensures var l := Resolve(t, path).value;
            var t' := ReplaceAt(t, l, At(t, l).(data := []));
            FileRead(t', path) == (SUCCESS, []) && ValidLoc(t', l) && At(t', l).entry == At(t, l).entry
  {
    ReplaceDataKeepsPath(t, path, []);
  }

  /** `file_delete`: the node is detached, by its stored name, from its parent. The root has no
      parent and is refused; a directory is removed like a file, with everything below it. */
  function FileDelete(t: Node, reg: UserManager.Registry, session: Option<UserManager.Handle>, path: CString): (r: Outcome)
    ensures r.code in {SUCCESS, ERROR_PERMISSION_DENIED, ERROR_INVALID_OPERATION}
    ensures r.code != SUCCESS ==> r.tree == t
    ensures r.code == ERROR_PERMISSION_DENIED <==>
              Resolve(t, path).None? || !CheckPermissions(reg, session, At(t, Resolve(t, path).value))
    ensures r.code == ERROR_INVALID_OPERATION <==> Resolve(t, path) == Some([]) && CheckPermissions(reg, session, t)
    ensures r.code == SUCCESS ==>
              && Resolve(t, path).Some?
              && var l := Resolve(t, path).value;
              && |l| > 0 && r.tree == RemoveAt(t, l) && Size(r.tree) == Size(t) - Size(At(t, l))
  {
    match Resolve(t, path)
    case None => Outcome(ERROR_PERMISSION_DENIED, t)
    case Some(l) =>
      var node := At(t, l);
      if !CheckPermissions(reg, session, node) then Outcome(ERROR_PERMISSION_DENIED, t)
      else if |l| == 0 then Outcome(ERROR_INVALID_OPERATION, t)
      else
        var parent := At(t, Up(l));
        FoundByOwnName(t, TakeUntilEmpty(Split(path[1..])), l);
        RemoveAtSize(t, l);
        Outcome(SUCCESS, ReplaceAt(t, Up(l), DetachChild(parent, CStr(node.entry.name)).1))
  }

  /** `file_exists`: SUCCESS for anything that resolves, directories and the root included. */
  function FileExists(t: Node, path: CString): (code: int)
    ensures code == SUCCESS <==> Resolve(t, path).Some?
    ensures code != SUCCESS ==> code == ERROR_NOT_FOUND
  {
    if Resolve(t, path).Some? then SUCCESS else ERROR_NOT_FOUND
  }

  /** A file made by `file_create` on a clean path then exists. */
  lemma CreateThenExists(t: Node, nextIndex: nat, reg: UserManager.Registry, session: Option<UserManager.Handle>,
                         path: CString, data: Option<seq<char>>, size: nat)
    requires data.Some? ==> size <= |data.value|
    requires FileCreate(t, nextIndex, reg, session, Some(path), data, size).code == SUCCESS
    requires Clean(path) && |SplitLast(path).1| <= 255
    requires At(t, Resolve(t, SplitLast(path).0).value).children.List?
    ensures FileExists(FileCreate(t, nextIndex, reg, session, Some(path), data, size).tree, path) == SUCCESS
  {
    CreateLands(t, nextIndex, reg, session, path, data, size);
  }

  // ---------------------------------------------------------------------------
  // Renaming
  // ---------------------------------------------------------------------------

  /** The node with its name field rewritten by `strncpy` into 255 characters. */
  function Renamed(n: Node, name: string): (r: Node)
    ensures r.entry.name == Truncate(name, 255) && r.entry.(name := n.entry.name) == n.entry
    ensures r.data == n.data && r.children == n.children
  {
    n.(entry := n.entry.(name := Truncate(name, 255)))
  }

  /** Detaching the node at `l` and attaching `x` below `q`, with `q` located before the
      detach: appending first keeps `l` where it is, and unlinking `l` afterwards is the same
      as unlinking it first. When `q` lies inside the moved subtree the attached copy goes
      with it, as the C++ code leaves it in a cycle no path from the root reaches. */
  function Move(t: Node, l: Loc, q: Loc, x: Node): (r: Node)
    requires ValidLoc(t, l) && |l| > 0 && ValidLoc(t, q)
  {
    AppendAtKeeps(t, q, x, l);
    RemoveAt(AppendAt(t, q, x), l)
  }

  /** `file_rename`, or `None` where the C++ code dereferences the root's null parent. The new
      name is not checked for emptiness, and the new parent is not checked to be a directory:
      `addChild` then ignores the node, which is lost. */
  function FileRename(t: Node, reg: UserManager.Registry, session: Option<UserManager.Handle>,
                      oldPath: CString, newPath: CString): (r: Option<Outcome>)
    ensures r.Some? ==> r.value.code in {SUCCESS, ERROR_PERMISSION_DENIED, ERROR_NOT_FOUND, ERROR_FILE_EXISTS}
    ensures r.Some? && r.value.code != SUCCESS ==> r.value.tree == t
    ensures (r.Some? && r.value.code == ERROR_PERMISSION_DENIED) <==>
              Resolve(t, oldPath).None? || !CheckPermissions(reg, session, At(t, Resolve(t, oldPath).value))
    ensures (r.Some? && r.value.code == ERROR_NOT_FOUND) <==>
              && Resolve(t, oldPath).Some? && CheckPermissions(reg, session, At(t, Resolve(t, oldPath).value))
              && Resolve(t, SplitLast(newPath).0).None?
    ensures (r.Some? && r.value.code == ERROR_FILE_EXISTS) <==>
              && Resolve(t, oldPath).Some? && CheckPermissions(reg, session, At(t, Resolve(t, oldPath).value))
              && Resolve(t, SplitLast(newPath).0).Some?
              && ChildIndex(At(t, Resolve(t, SplitLast(newPath).0).value), SplitLast(newPath).1).Some?
    ensures r.None? <==>
              && Resolve(t, oldPath) == Some([]) && CheckPermissions(reg, session, t)
              && Resolve(t, SplitLast(newPath).0).Some?
              && ChildIndex(At(t, Resolve(t, SplitLast(newPath).0).value), SplitLast(newPath).1).None?
    ensures r.Some? && r.value.code == SUCCESS ==>
              && Resolve(t, oldPath).Some? && Resolve(t, SplitLast(newPath).0).Some?
              && var l := Resolve(t, oldPath).value;
              && var q := Resolve(t, SplitLast(newPath).0).value;
              && |l| > 0
              && r.value.tree == Move(t, l, q, Renamed(At(t, l), SplitLast(newPath).1))
  {
    match Resolve(t, oldPath)
    case None => Some(Outcome(ERROR_PERMISSION_DENIED, t))
    case Some(l) =>
      var node := At(t, l);
      if !CheckPermissions(reg, session, node) then Some(Outcome(ERROR_PERMISSION_DENIED, t))
      else
        var (newParentPath, newName) := SplitLast(newPath);
        match Resolve(t, newParentPath)
        case None => Some(Outcome(ERROR_NOT_FOUND, t))
        case Some(q) =>
          if GetChild(At(t, q), newName).Some? then Some(Outcome(ERROR_FILE_EXISTS, t))
          else if |l| == 0 then None
          else Some(Outcome(SUCCESS, Move(t, l, q, Renamed(node, newName))))
  }

  /** Renaming a node onto its own clean path finds the node itself under the new name and
      reports FILE_EXISTS. */
  lemma RenameOntoItself(t: Node, reg: UserManager.Registry, session: Option<UserManager.Handle>, path: CString)
    requires Clean(path) && Resolve(t, path).Some?
    requires CheckPermissions(reg, session, At(t, Resolve(t, path).value))
    ensures FileRename(t, reg, session, path, path) == Some(Outcome(ERROR_FILE_EXISTS, t))
  {
    ParentHasName(t, path);
  }

  /** A clean path that resolves names a child of the node its parent path resolves to: the
      child `getChild` finds under the path's last name. */
  lemma ParentHasName(t: Node, path: CString)
    requires Clean(path) && Resolve(t, path).Some?
    ensures var (parentPath, name) := SplitLast(path);
            var l := Resolve(t, path).value;
            && |l| > 0 && ValidLoc(t, Up(l)) && Resolve(t, parentPath) == Some(Up(l))
            && ChildIndex(At(t, Up(l)), name) == Some(Last(l))
  {
    var (parentPath, name) := SplitLast(path);
    var names := TakeUntilEmpty(Split(path[1..]));
    var l := Resolve(t, path).value;
    CleanSplitLast(path);
    WalkLast(t, [], names, l);
    assert names[..|names| - 1] == TakeUntilEmpty(Split(parentPath[1..]));
  }

  /** Renaming within one directory: the parent keeps its other children in order and gets
      the renamed node at the end. */
  lemma RenameWithinDirectory(t: Node, reg: UserManager.Registry, session: Option<UserManager.Handle>,
                              oldPath: CString, newPath: CString)
    requires FileRename(t, reg, session, oldPath, newPath).Some?
    requires FileRename(t, reg, session, oldPath, newPath).value.code == SUCCESS
    requires var l := Resolve(t, oldPath).value;
             Resolve(t, SplitLast(newPath).0) == Some(Up(l))
             && IsDirectory(At(t, Up(l)).entry) && At(t, Up(l)).children.List?
    ensures var l := Resolve(t, oldPath).value;
            var t' := FileRename(t, reg, session, oldPath, newPath).value.tree;
            var cs := Kids(At(t, Up(l)));
            && ValidLoc(t', Up(l))
            && At(t', Up(l)).entry == At(t, Up(l)).entry
            && Kids(At(t', Up(l))) == cs[..Last(l)] + cs[Last(l) + 1..] + [Renamed(At(t, l), SplitLast(newPath).1)]
  {
    var l := Resolve(t, oldPath).value;
    var x := Renamed(At(t, l), SplitLast(newPath).1);
    assert FileRename(t, reg, session, oldPath, newPath).value.tree == Move(t, l, Up(l), x);
    MoveWithinParent(t, l, x);
  }

  lemma MoveWithinParent(t: Node, l: Loc, x: Node)
    requires ValidLoc(t, l) && |l| > 0
    requires IsDirectory(At(t, Up(l)).entry) && At(t, Up(l)).children.List?
    ensures var t' := Move(t, l, Up(l), x);
            var cs := Kids(At(t, Up(l)));
            && ValidLoc(t', Up(l))
            && At(t', Up(l)).entry == At(t, Up(l)).entry
            && Kids(At(t', Up(l))) == cs[..Last(l)] + cs[Last(l) + 1..] + [x]
  {
    var p := At(t, Up(l));
    var t1 := AppendAt(t, Up(l), x);
    AppendAtKeeps(t, Up(l), x, l);
    var i := Last(l);
    var cs := Kids(p);
    assert i < |cs|;
    var y := At(t1, Up(l));
    assert y == AddChild(p, x);
    assert Kids(y) == cs + [x];
    var z := At(Move(t, l, Up(l), x), Up(l));
    assert z == Without(y, i);
    DropFromAppended(cs, x, i);
  }

  /** Unlinking position `i` after appending `x` is appending `x` after unlinking `i`. */
  lemma DropFromAppended<T>(cs: seq<T>, x: T, i: nat)
    requires i < |cs|
    ensures (cs + [x])[..i] + (cs + [x])[i + 1..] == cs[..i] + cs[i + 1..] + [x]
  {
    assert (cs + [x])[..i] == cs[..i];
    assert (cs + [x])[i + 1..] == cs[i + 1..] + [x];
  }

  /** Moving a node below a directory outside its own subtree keeps every node in the tree. */
  lemma RenameKeepsNodes(t: Node, reg: UserManager.Registry, session: Option<UserManager.Handle>,
                         oldPath: CString, newPath: CString)
    requires FileRename(t, reg, session, oldPath, newPath).Some?
    requires FileRename(t, reg, session, oldPath, newPath).value.code == SUCCESS
    requires var l := Resolve(t, oldPath).value;
             var q := Resolve(t, SplitLast(newPath).0).value;
             !(l <= q) && IsDirectory(At(t, q).entry) && At(t, q).children.List?
    ensures Size(FileRename(t, reg, session, oldPath, newPath).value.tree) == Size(t)
  {
    var l := Resolve(t, oldPath).value;
    var q := Resolve(t, SplitLast(newPath).0).value;
    var x := Renamed(At(t, l), SplitLast(newPath).1);
    var t1 := AppendAt(t, q, x);
    AppendAtSize(t, q, x);
    AppendAtKeeps(t, q, x, l);
    RemoveAtSize(t1, l);
  }

  /** Moving a node below a file loses it: `addChild` ignores it once it has been detached. */
  lemma RenameBelowFileLosesNode(t: Node, reg: UserManager.Registry, session: Option<UserManager.Handle>,
                                 oldPath: CString, newPath: CString)
    requires FileRename(t, reg, session, oldPath, newPath).Some?
    requires FileRename(t, reg, session, oldPath, newPath).value.code == SUCCESS
    requires !IsDirectory(At(t, Resolve(t, SplitLast(newPath).0).value).entry)
    ensures var l := Resolve(t, oldPath).value;
            FileRename(t, reg, session, oldPath, newPath).value.tree == RemoveAt(t, l)
            && Size(FileRename(t, reg, session, oldPath, newPath).value.tree) == Size(t) - Size(At(t, l))
  {
    var l := Resolve(t, oldPath).value;
    var q := Resolve(t, SplitLast(newPath).0).value;
    ReplaceAtSame(t, q);
    RemoveAtSize(t, l);
  }
}
