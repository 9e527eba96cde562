/** The directory operations (`dir_manager`): its own path resolver, which skips empty
    components, a permission check on mode bits, and mkdir, list, rmdir and exists. */
module DirManager {
  import opened Base
  import opened OdfTypes
  import opened Paths
  import opened FsNode
  import UserManager

  // ---------------------------------------------------------------------------
  // Path resolution
  // ---------------------------------------------------------------------------

  /** The names the loop of `resolve_path` looks up, in order, from position `start`: the
      text up to each '/' or the end of the string, with empty tokens skipped. Each name is
      looked up with `getChild` in the node reached so far, and the first one that is missing
      ends the walk. */
  function DirTokens(path: string, start: nat): seq<string>
    requires start <= |path|
    decreases |path| - start
  {
    if start == |path| then []
    else
      var end := Find(path, SLASH, start);
      var part := path[start..end];
      (if part == [] then [] else [part]) + (if end == |path| then [] else DirTokens(path, end + 1))
  }

  /** The loop's names are the non-empty '/'-separated components. */
  lemma {:induction false} DirTokensSplit(path: string, start: nat)
    requires start <= |path|
    ensures DirTokens(path, start) == NonEmpty(Split(path[start..]))
    decreases |path| - start
  {
    if start == |path| {
      assert Split(path[start..]) == [""];
      assert NonEmpty([""]) == [];
    } else {
      DirStep(path, start);
      var end := Find(path, SLASH, start);
      if end < |path| {
        DirTokensSplit(path, end + 1);
      }
    }
  }

  /** One turn of that loop: the token up to the next '/', unless empty, then the names
      after it. */
  lemma DirStep(path: string, start: nat)
    requires start < |path|
    ensures var end := Find(path, SLASH, start);
            var part := path[start..end];
            NonEmpty(Split(path[start..])) ==
              (if part == [] then [] else [part]) + (if end == |path| then [] else NonEmpty(Split(path[end + 1..])))
  {
    SplitFrom(path, start);
    var end := Find(path, SLASH, start);
    var part := path[start..end];
    var rest := if end == |path| then [] else Split(path[end + 1..]);
    assert Split(path[start..]) == [part] + rest by {
      if end == |path| {
        assert part == path[start..];
      }
    }
    NonEmptyAppend([part], rest);
  }

  /** `resolve_path`: null unless the path starts with '/'; otherwise the walk from the root
      over the non-empty components. */
  function Resolve(t: Node, path: string): (r: Option<Loc>)
    ensures |path| == 0 || path[0] != SLASH ==> r.None?
    ensures |path| > 0 && path[0] == SLASH ==> r == Walk(t, [], NonEmpty(Split(path[1..])))
    ensures path == "/" ==> r == Some([])
  {
    if |path| == 0 || path[0] != SLASH then None
    else
      DirTokensSplit(path, 1);
      Walk(t, [], DirTokens(path, 1))
  }

  /** Doubled slashes are skipped: "/a//b" names the same node as "/a/b". */
  lemma ResolveSkipsEmpty(t: Node, a: string, b: string)
    ensures Resolve(t, "/" + a + "//" + b) == Resolve(t, "/" + a + "/" + b)
  {
    var p, q := "/" + a + "//" + b, "/" + a + "/" + b;
    assert p[1..] == a + "//" + b && q[1..] == a + "/" + b;
    NonEmptySkipsDouble(a, b);
    ResolveSameComponents(t, p, q);
  }

  /** Two absolute paths with the same non-empty components name the same node. */
  lemma ResolveSameComponents(t: Node, p: string, q: string)
    requires |p| > 0 && p[0] == SLASH && |q| > 0 && q[0] == SLASH
    requires NonEmpty(Split(p[1..])) == NonEmpty(Split(q[1..]))
    ensures Resolve(t, p) == Resolve(t, q)
  {
  }

  /** A trailing '/' is ignored: "/a/" names the same node as "/a". */
  lemma ResolveIgnoresTrailingSlash(t: Node, a: string)
    ensures Resolve(t, "/" + a + "/") == Resolve(t, "/" + a)
  {
    var p := "/" + a + "/";
    assert p[1..] == a + "/" + "";
    assert ("/" + a)[1..] == a;
    SplitSep(a, "");
    assert Split("") == [""];
    NonEmptyAppend(Split(a), [""]);
    assert NonEmpty([""]) == [];
    assert NonEmpty(Split(p[1..])) == NonEmpty(Split(a));
  }

  /** An absolute path fails to resolve exactly when some component is missing on the way. */
  lemma ResolveNoneIff(t: Node, path: string)
    requires |path| > 0 && path[0] == SLASH
    ensures Resolve(t, path).None? <==> exists k: nat :: MissingAt(t, [], NonEmpty(Split(path[1..])), k)
  {
    assert Resolve(t, path) == Walk(t, [], NonEmpty(Split(path[1..])));
    WalkNoneIff(t, [], NonEmpty(Split(path[1..])));
  }

  // ---------------------------------------------------------------------------
  // Permissions
  // ---------------------------------------------------------------------------

  /** The requested OWNER_x flags as the matching OTHERS_x flags. */
  function OthersBits(required: bv32): (b: bv32)
    ensures b == (required & (OWNER_READ | OWNER_WRITE | OWNER_EXECUTE)) >> 6
  {
    (if required & OWNER_READ != 0 then OTHERS_READ else 0)
    | (if required & OWNER_WRITE != 0 then OTHERS_WRITE else 0)
    | (if required & OWNER_EXECUTE != 0 then OTHERS_EXECUTE else 0)
  }

  /** `check_dir_permission` for a non-null node. The test of the caller's name against the
      owner compares the addresses of two character arrays, one of them a local copy, so it
      never holds and only the OTHERS branch can decide. */
  function CheckDirPermission(reg: UserManager.Registry, session: Option<UserManager.Handle>, n: Node,
                              required: bv32): (ok: bool)
    ensures ok <==> UserManager.FindSession(reg, session).Some?
                    && (UserManager.FindSession(reg, session).value.user.role == ROLE_ADMIN
                        || n.entry.permissions & OthersBits(required) == OthersBits(required))
  {
    if session.None? then false
    else
      var (code, info) := UserManager.GetSessionInfo(reg, session);
      if code != SUCCESS then false
      else
        var perms := n.entry.permissions;
        if info.value.user.role == ROLE_ADMIN then true
        else perms & OthersBits(required) == OthersBits(required)
  }

  /** The owner is never consulted: changing a node's owner does not change the answer, and
      a mode that grants only its owner (0700) refuses every non-admin, the owner included. */
  lemma OwnerNeverConsulted(reg: UserManager.Registry, session: Option<UserManager.Handle>, n: Node,
                            required: bv32, owner: string)
    ensures CheckDirPermission(reg, session, n.(entry := n.entry.(owner := owner)), required)
            == CheckDirPermission(reg, session, n, required)
    ensures n.entry.permissions == OWNER_READ | OWNER_WRITE | OWNER_EXECUTE && required & OWNER_WRITE != 0
            && UserManager.FindSession(reg, session).Some?
            && UserManager.FindSession(reg, session).value.user.role != ROLE_ADMIN
            ==> !CheckDirPermission(reg, session, n, required)
  {
    var n' := n.(entry := n.entry.(owner := owner));
    assert n'.entry.permissions == n.entry.permissions;
    if n.entry.permissions == OWNER_READ | OWNER_WRITE | OWNER_EXECUTE && required & OWNER_WRITE != 0 {
      OwnerOnlyRefuses(required);
    }
  }

  /** Owner-only mode bits never carry the OTHERS_WRITE flag a write request turns into. */
  lemma OwnerOnlyRefuses(required: bv32)
    requires required & OWNER_WRITE != 0
    ensures (OWNER_READ | OWNER_WRITE | OWNER_EXECUTE) & OthersBits(required) != OthersBits(required)
  {
    var b := OthersBits(required);
    assert b & OTHERS_WRITE != 0;
    assert (OWNER_READ | OWNER_WRITE | OWNER_EXECUTE) & b & OTHERS_WRITE == 0;
  }

  // ---------------------------------------------------------------------------
  // Operations
  // ---------------------------------------------------------------------------

  /** The entry `dir_create` builds for a new directory. */
  function DirEntry(name: string, owner: string): (e: FileEntry)
    ensures IsDirectory(e) && e.permissions == MODE_0755 && e.inode == 0 && e.size == 0
  {
    NewFileEntry(name, DIRECTORY, 0, MODE_0755, owner, 0)
  }

  /** The argument checks `dir_create` makes before it looks anything up: a session and a path
      are given, the path starts with '/', and its last name is not empty. */
  predicate CreateArgsOk(session: Option<UserManager.Handle>, path: Option<CString>)
  {
    session.Some? && path.Some? && |path.value| > 0 && path.value[0] == SLASH && SplitLast(path.value).1 != []
  }

  /** `dir_create`. Each error code is returned exactly when its check is the first to fail,
      in the order the code makes them. A parent that resolves to a file takes the new node
      silently: `addChild` ignores it and SUCCESS is still returned. */
  function DirCreate(t: Node, reg: UserManager.Registry, session: Option<UserManager.Handle>,
                     path: Option<CString>): (r: Outcome)
    ensures r.code in {SUCCESS, ERROR_INVALID_OPERATION, ERROR_NOT_FOUND, ERROR_PERMISSION_DENIED, ERROR_FILE_EXISTS}
    ensures r.code != SUCCESS ==> r.tree == t
    ensures r.code == ERROR_INVALID_OPERATION <==>
              session.None? || path.None? || |path.value| == 0 || path.value[0] != SLASH
              || SplitLast(path.value).1 == []
    ensures r.code == ERROR_NOT_FOUND <==>
              CreateArgsOk(session, path) && Resolve(t, SplitLast(path.value).0).None?
    ensures r.code == ERROR_PERMISSION_DENIED <==>
              && CreateArgsOk(session, path) && Resolve(t, SplitLast(path.value).0).Some?
              && !CheckDirPermission(reg, session, At(t, Resolve(t, SplitLast(path.value).0).value), OWNER_WRITE)
    ensures r.code == ERROR_FILE_EXISTS <==>
              && CreateArgsOk(session, path) && Resolve(t, SplitLast(path.value).0).Some?
              && var p := Resolve(t, SplitLast(path.value).0).value;
              && CheckDirPermission(reg, session, At(t, p), OWNER_WRITE)
              && ChildIndex(At(t, p), SplitLast(path.value).1).Some?
    ensures r.code == SUCCESS ==>
              && var (parentPath, name) := SplitLast(path.value);
              && Resolve(t, parentPath).Some?
              && var p := Resolve(t, parentPath).value;
              && CheckDirPermission(reg, session, At(t, p), OWNER_WRITE)
              && ChildIndex(At(t, p), name).None?
              && var owner := CStr(UserManager.FindSession(reg, session).value.user.username);
              && r.tree == AppendAt(t, p, NewNode(DirEntry(name, owner)))
  {
    if session.None? || path.None? then Outcome(ERROR_INVALID_OPERATION, t)
    else
      var str := path.value;
      if |str| == 0 || str[0] != SLASH then Outcome(ERROR_INVALID_OPERATION, t)
      else
        var (parentPath, name) := SplitLast(str);
        if name == [] then Outcome(ERROR_INVALID_OPERATION, t)
        else match Resolve(t, parentPath)
          case None => Outcome(ERROR_NOT_FOUND, t)
          case Some(p) =>
            var parent := At(t, p);
            if !CheckDirPermission(reg, session, parent, OWNER_WRITE) then Outcome(ERROR_PERMISSION_DENIED, t)
            else if GetChild(parent, name).Some? then Outcome(ERROR_FILE_EXISTS, t)
            else
              var info := UserManager.GetSessionInfo(reg, session).1.value;
              var e := DirEntry(name, CStr(info.user.username));
              Outcome(SUCCESS, AppendAt(t, p, NewNode(e)))
  }

  /** After a successful `dir_create` below a directory, the path names a new, empty directory
      owned by the caller, last among its parent's children — provided the name fits the
      255-character field; a longer name is stored cut short and the path no longer finds it. */
  lemma DirCreateThenResolve(t: Node, reg: UserManager.Registry, session: Option<UserManager.Handle>, path: CString)
    requires DirCreate(t, reg, session, Some(path)).code == SUCCESS
    requires var parent := At(t, Resolve(t, SplitLast(path).0).value);
             IsDirectory(parent.entry) && parent.children.List?
    requires |SplitLast(path).1| <= 255
    ensures var t' := DirCreate(t, reg, session, Some(path)).tree;
            var p := Resolve(t, SplitLast(path).0).value;
            && Resolve(t', path) == Some(p + [|Kids(At(t, p))|])
            && var d := At(t', p + [|Kids(At(t, p))|]);
            && IsDirectory(d.entry) && Kids(d) == [] && d.entry.permissions == MODE_0755
            && CStr(d.entry.name) == SplitLast(path).1
            && d.entry.owner == Truncate(CStr(UserManager.FindSession(reg, session).value.user.username), 31)
  {
    var (parentPath, name) := SplitLast(path);
    var p := Resolve(t, parentPath).value;
    var owner := CStr(UserManager.FindSession(reg, session).value.user.username);
    var c := NewNode(DirEntry(name, owner));
    TruncateFits(name, 255);
    DirComponents(path);
    WalkToAppended(t, p, c, NonEmpty(Split(parentPath[1..])), name);
  }

  /** The non-empty components of an absolute path: those of its parent path, then its name. */
  lemma DirComponents(path: string)
    requires |path| > 0 && path[0] == SLASH && SplitLast(path).1 != []
    ensures var (parentPath, name) := SplitLast(path);
            NonEmpty(Split(path[1..])) == NonEmpty(Split(parentPath[1..])) + [name]
  {
    var (parentPath, name) := SplitLast(path);
    SplitLastComponents(path);
    if path == "/" + name {
      assert parentPath == "/";
      assert Split(parentPath[1..]) == [""];
      NonEmptyAppend([], [name]);
    } else {
      NonEmptyAppend(Split(parentPath[1..]), [name]);
    }
  }

  /** `dir_list`: the entries of the directory's children in insertion order, after the
      argument, type and read-permission checks. (Null output pointers are not modelled.) */
  function DirList(t: Node, reg: UserManager.Registry, session: Option<UserManager.Handle>,
                   path: Option<CString>): (r: (int, seq<FileEntry>))
    ensures r.0 in {SUCCESS, ERROR_INVALID_OPERATION, ERROR_NOT_FOUND, ERROR_PERMISSION_DENIED}
    ensures r.0 != SUCCESS ==> r.1 == []
    ensures r.0 == ERROR_INVALID_OPERATION <==>
              session.None? || path.None?
              || (Resolve(t, path.value).Some? && !IsDirectory(At(t, Resolve(t, path.value).value).entry))
    ensures r.0 == ERROR_NOT_FOUND <==> session.Some? && path.Some? && Resolve(t, path.value).None?
    ensures r.0 == ERROR_PERMISSION_DENIED <==>
              && session.Some? && path.Some? && Resolve(t, path.value).Some?
              && var d := At(t, Resolve(t, path.value).value);
              && IsDirectory(d.entry) && !CheckDirPermission(reg, session, d, OWNER_READ)
    ensures r.0 == SUCCESS ==>
              && session.Some? && path.Some? && Resolve(t, path.value).Some?
              && var d := At(t, Resolve(t, path.value).value);
              && IsDirectory(d.entry) && CheckDirPermission(reg, session, d, OWNER_READ)
              && |r.1| == |Kids(d)|
              && forall i :: 0 <= i < |r.1| ==> r.1[i] == Kids(d)[i].entry
  {
    if session.None? || path.None? then (ERROR_INVALID_OPERATION, [])
    else match Resolve(t, path.value)
      case None => (ERROR_NOT_FOUND, [])
      case Some(l) =>
        var d := At(t, l);
        if !IsDirectory(d.entry) then (ERROR_INVALID_OPERATION, [])
        else if !CheckDirPermission(reg, session, d, OWNER_READ) then (ERROR_PERMISSION_DENIED, [])
        else (SUCCESS, KidEntries(d))
  }

  /** Listing a directory after `addChild` on it gives its earlier entries, followed by the
      new child's. */
  lemma ListAfterAppend(t: Node, reg: UserManager.Registry, session: Option<UserManager.Handle>,
                        dirPath: CString, p: Loc, c: Node)
    requires session.Some? && Resolve(t, dirPath) == Some(p)
    requires var d := At(t, p); IsDirectory(d.entry) && d.children.List? && CheckDirPermission(reg, session, d, OWNER_READ)
    ensures DirList(AppendAt(t, p, c), reg, session, Some(dirPath)) == (SUCCESS, KidEntries(At(t, p)) + [c.entry])
  {
    var x := AddChild(At(t, p), c);
    ResolveReplaced(t, dirPath, p, x);
    AddChildEntries(At(t, p), c);
    ListReadable(AppendAt(t, p, c), reg, session, dirPath, p);
  }

  /** A directory the caller may read lists its children's entries. */
  lemma ListReadable(t: Node, reg: UserManager.Registry, session: Option<UserManager.Handle>, dirPath: CString, p: Loc)
    requires session.Some? && Resolve(t, dirPath) == Some(p)
    requires var d := At(t, p); IsDirectory(d.entry) && CheckDirPermission(reg, session, d, OWNER_READ)
    ensures DirList(t, reg, session, Some(dirPath)) == (SUCCESS, KidEntries(At(t, p)))
  {
  }

  /** Replacing the node a path names by one with the same name keeps the path's answer. */
  lemma ResolveReplaced(t: Node, path: CString, l: Loc, x: Node)
    requires Resolve(t, path) == Some(l) && x.entry.name == At(t, l).entry.name
    ensures Resolve(ReplaceAt(t, l, x), path) == Some(l) && At(ReplaceAt(t, l, x), l) == x
  {
    WalkReplaceAt(t, l, x, [], NonEmpty(Split(path[1..])));
    ReplaceAtAt(t, l, x);
  }

  /** Listing the parent after a successful `dir_create` below a directory gives what it
      listed before, followed by the new directory's entry. */
  lemma DirCreateThenList(t: Node, reg: UserManager.Registry, session: Option<UserManager.Handle>, path: CString)
    requires DirCreate(t, reg, session, Some(path)).code == SUCCESS
    requires var parent := At(t, Resolve(t, SplitLast(path).0).value);
             IsDirectory(parent.entry) && parent.children.List? && CheckDirPermission(reg, session, parent, OWNER_READ)
    ensures var (parentPath, name) := SplitLast(path);
            var before := DirList(t, reg, session, Some(parentPath));
            var after := DirList(DirCreate(t, reg, session, Some(path)).tree, reg, session, Some(parentPath));
            && before.0 == SUCCESS && after.0 == SUCCESS
            && after.1 == before.1 + [DirEntry(name, CStr(UserManager.FindSession(reg, session).value.user.username))]
  {
    var (parentPath, name) := SplitLast(path);
    var p := Resolve(t, parentPath).value;
    var c := NewNode(DirEntry(name, CStr(UserManager.FindSession(reg, session).value.user.username)));
    ListAfterAppend(t, reg, session, parentPath, p, c);
    ListReadable(t, reg, session, parentPath, p);
  }

  /** What `dir_delete` can go on to remove once its argument and type checks pass: the path
      names a directory other than the root. */
  predicate DeleteTarget(t: Node, session: Option<UserManager.Handle>, path: Option<CString>)
  {
    && session.Some? && path.Some? && path.value != "/" && Resolve(t, path.value).Some?
    && var l := Resolve(t, path.value).value;
    && IsDirectory(At(t, l).entry) && |l| > 0
  }

  /** `dir_delete`: refuses "/", files, the root reached by another spelling, a parent the
      caller may not write, and a directory with children, in that order; otherwise
      `removeChild` of the directory's name on its parent. */
  function DirDelete(t: Node, reg: UserManager.Registry, session: Option<UserManager.Handle>,
                     path: Option<CString>): (r: Outcome)
    ensures r.code in {SUCCESS, ERROR_INVALID_OPERATION, ERROR_NOT_FOUND, ERROR_PERMISSION_DENIED, ERROR_DIRECTORY_NOT_EMPTY}
    ensures r.code != SUCCESS ==> r.tree == t
    ensures r.code == ERROR_INVALID_OPERATION <==>
              session.None? || path.None? || path.value == "/"
              || (Resolve(t, path.value).Some?
                  && (!IsDirectory(At(t, Resolve(t, path.value).value).entry) || Resolve(t, path.value).value == []))
    ensures r.code == ERROR_NOT_FOUND <==>
              session.Some? && path.Some? && path.value != "/" && Resolve(t, path.value).None?
    ensures r.code == ERROR_PERMISSION_DENIED <==>
              DeleteTarget(t, session, path)
              && !CheckDirPermission(reg, session, At(t, Up(Resolve(t, path.value).value)), OWNER_WRITE)
    ensures r.code == ERROR_DIRECTORY_NOT_EMPTY <==>
              && DeleteTarget(t, session, path)
              && var l := Resolve(t, path.value).value;
              && CheckDirPermission(reg, session, At(t, Up(l)), OWNER_WRITE) && |Kids(At(t, l))| > 0
    ensures r.code == SUCCESS ==>
              && path.Some? && path.value != "/" && Resolve(t, path.value).Some?
              && var l := Resolve(t, path.value).value;
              && |l| > 0 && IsDirectory(At(t, l).entry) && Kids(At(t, l)) == []
              && CheckDirPermission(reg, session, At(t, Up(l)), OWNER_WRITE)
              && r.tree == ReplaceAt(t, Up(l), RemoveChild(At(t, Up(l)), CStr(At(t, l).entry.name)).1)
  {
    if session.None? || path.None? then Outcome(ERROR_INVALID_OPERATION, t)
    else if path.value == "/" then Outcome(ERROR_INVALID_OPERATION, t)
    else match Resolve(t, path.value)
      case None => Outcome(ERROR_NOT_FOUND, t)
      case Some(l) =>
        var node := At(t, l);
        if !IsDirectory(node.entry) then Outcome(ERROR_INVALID_OPERATION, t)
        else if |l| == 0 then Outcome(ERROR_INVALID_OPERATION, t)
        else
          var parent := At(t, Up(l));
          if !CheckDirPermission(reg, session, parent, OWNER_WRITE) then Outcome(ERROR_PERMISSION_DENIED, t)
          else if Kids(node) != [] then Outcome(ERROR_DIRECTORY_NOT_EMPTY, t)
          else Outcome(SUCCESS, ReplaceAt(t, Up(l), RemoveChild(parent, CStr(node.entry.name)).1))
  }

  /** `dir_delete` removes exactly the directory the path names: the first child of the
      parent that carries its name is that directory itself. */
  lemma DirDeleteRemovesTarget(t: Node, reg: UserManager.Registry, session: Option<UserManager.Handle>, path: CString)
    requires DirDelete(t, reg, session, Some(path)).code == SUCCESS
    ensures var l := Resolve(t, path).value;
            DirDelete(t, reg, session, Some(path)).tree == RemoveAt(t, l)
            && Size(DirDelete(t, reg, session, Some(path)).tree) == Size(t) - 1
  {
    var l := Resolve(t, path).value;
    FoundByOwnName(t, NonEmpty(Split(path[1..])), l);
    RemoveAtSize(t, l);
  }

  /** `dir_exists`: SUCCESS for a directory, INVALID_OPERATION for anything else that
      resolves, NOT_FOUND otherwise; the session plays no part. */
  function DirExists(t: Node, path: Option<CString>): (code: int)
    ensures code == ERROR_INVALID_OPERATION <==>
              path.None? || (Resolve(t, path.value).Some? && !IsDirectory(At(t, Resolve(t, path.value).value).entry))
    ensures code == ERROR_NOT_FOUND <==> path.Some? && Resolve(t, path.value).None?
    ensures code == SUCCESS <==>
              path.Some? && Resolve(t, path.value).Some? && IsDirectory(At(t, Resolve(t, path.value).value).entry)
  {
    if path.None? then ERROR_INVALID_OPERATION
    else match Resolve(t, path.value)
      case None => ERROR_NOT_FOUND
      case Some(l) => if IsDirectory(At(t, l).entry) then SUCCESS else ERROR_INVALID_OPERATION
  }

  /** A directory made by `dir_create` below a directory then exists. */
  lemma DirCreateThenExists(t: Node, reg: UserManager.Registry, session: Option<UserManager.Handle>, path: CString)
    requires DirCreate(t, reg, session, Some(path)).code == SUCCESS
    requires var parent := At(t, Resolve(t, SplitLast(path).0).value);
             IsDirectory(parent.entry) && parent.children.List?
    requires |SplitLast(path).1| <= 255
    ensures DirExists(DirCreate(t, reg, session, Some(path)).tree, Some(path)) == SUCCESS
  {
    DirCreateThenResolve(t, reg, session, path);
  }
}
