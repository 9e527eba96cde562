/** The login layer (`user_manager`): the user table it shares with the file-system instance,
    and the registry of live `SessionInfo` objects whose addresses serve as session handles. */
module UserManager {
  import opened Base
  import opened OdfTypes
  import HashTable

  // ---------------------------------------------------------------------------
  // Sessions
  // ---------------------------------------------------------------------------

  /** A `void*` session handle: the address of a registered `SessionInfo`. Addresses are drawn
      fresh for every login; the allocator's reuse of freed addresses is not modelled. */
  type Handle = nat

  /** One heap-allocated `SessionInfo` and its address. */
  datatype Session = Session(handle: Handle, info: SessionInfo)

  /** `active_sessions` in registration order, with the next fresh address. */
  datatype Registry = Registry(active: seq<Session>, nextHandle: Handle)

  function Handles(reg: Registry): set<Handle>
  {
    set i | 0 <= i < |reg.active| :: reg.active[i].handle
  }

  /** Every registered address was handed out before and none is registered twice. */
  predicate ValidRegistry(reg: Registry)
  {
    && (forall i :: 0 <= i < |reg.active| ==> reg.active[i].handle < reg.nextHandle)
    && (forall i, j :: 0 <= i < j < |reg.active| ==> reg.active[i].handle != reg.active[j].handle)
  }

  /** The registry of a freshly constructed `user_manager`. */
  function NewRegistry(): (reg: Registry)
    ensures ValidRegistry(reg) && Handles(reg) == {}
  {
    Registry([], 1)
  }

  /** The position of the first registered session at address `h`. */
  function IndexOfHandle(active: seq<Session>, h: Handle): (r: Option<nat>)
    ensures r.Some? ==> r.value < |active| && active[r.value].handle == h
                        && forall j :: 0 <= j < r.value ==> active[j].handle != h
    ensures r.None? ==> forall j :: 0 <= j < |active| ==> active[j].handle != h
  {
    if active == [] then None
    else if active[0].handle == h then Some(0)
    else match IndexOfHandle(active[1..], h)
      case None => None
      case Some(i) => Some(i + 1)
  }

  /** `find_session`: the registered session whose address is the handle; null for a null or
      unregistered handle. */
  function FindSession(reg: Registry, session: Option<Handle>): (r: Option<SessionInfo>)
    ensures r.None? <==> session.None? || session.value !in Handles(reg)
    ensures r.Some? ==> exists i :: 0 <= i < |reg.active| && reg.active[i] == Session(session.value, r.value)
  {
    if session.None? then None
    else match IndexOfHandle(reg.active, session.value)
      case None => None
      case Some(i) => Some(reg.active[i].info)
  }

  /** With distinct addresses the session found is the one registered at the address. */
  lemma FindRegistered(reg: Registry, i: nat)
    requires ValidRegistry(reg) && i < |reg.active|
    ensures FindSession(reg, Some(reg.active[i].handle)) == Some(reg.active[i].info)
  {
    var k := IndexOfHandle(reg.active, reg.active[i].handle).value;
    assert k == i;
  }

  /** `check_admin`: the handle is registered and the user snapshot in it has role ADMIN. */
  function CheckAdmin(reg: Registry, session: Option<Handle>): (r: bool)
    ensures r <==> exists i :: 0 <= i < |reg.active| && Some(reg.active[i].handle) == session
                              && FindSession(reg, session) == Some(reg.active[i].info)
                              && reg.active[i].info.user.role == ROLE_ADMIN
  {
    var s := FindSession(reg, session);
    if s.Some? then
      var i :| 0 <= i < |reg.active| && reg.active[i] == Session(session.value, s.value);
      s.value.user.role == ROLE_ADMIN
    else false
  }

  /** `get_session_info`: a copy of the registered session, or INVALID_SESSION for a null or
      unregistered handle. (A null output pointer is not modelled.) */
  function GetSessionInfo(reg: Registry, session: Option<Handle>): (r: (int, Option<SessionInfo>))
    ensures r.0 == SUCCESS || r.0 == ERROR_INVALID_SESSION
    ensures r.0 == SUCCESS <==> r.1.Some?
    ensures r.1 == FindSession(reg, session)
  {
    match FindSession(reg, session)
    case None => (ERROR_INVALID_SESSION, None)
    case Some(s) => (SUCCESS, Some(s))
  }

  // ---------------------------------------------------------------------------
  // Password hashing
  // ---------------------------------------------------------------------------

  /** SHA-256 over the password's characters, taken as an arbitrary function onto 32-byte
      digests. */
  type Sha256 = f: string -> seq<u8> | forall s :: |f(s)| == 32
    witness (s: string) => seq(32, _ => 0)

  predicate IsHexDigit(c: char)
  {
    '0' <= c <= '9' || 'a' <= c <= 'f'
  }

  /** One nibble as `%x` prints it. */
  function HexDigit(n: nat): (c: char)
    requires n < 16
    ensures IsHexDigit(c)
  {
    if n < 10 then '0' + n as char else 'a' + (n - 10) as char
  }

  function HexValue(c: char): (n: nat)
    requires IsHexDigit(c)
    ensures n < 16 && HexDigit(n) == c
  {
    if c <= '9' then (c - '0') as nat else (c - 'a') as nat + 10
  }

  /** `sprintf("%02x")` of each byte in turn. */
  function HexBytes(d: seq<u8>): (h: string)
    ensures |h| == 2 * |d|
    ensures forall i :: 0 <= i < |h| ==> IsHexDigit(h[i])
  {
    if d == [] then [] else [HexDigit(d[0] as nat / 16), HexDigit(d[0] as nat % 16)] + HexBytes(d[1..])
  }

  /** Two hex digits at a time back to bytes. */
  function UnHex(h: string): (d: seq<u8>)
    requires |h| % 2 == 0 && forall i :: 0 <= i < |h| ==> IsHexDigit(h[i])
  {
    if h == [] then [] else [(HexValue(h[0]) * 16 + HexValue(h[1])) as u8] + UnHex(h[2..])
  }

  lemma {:induction false} UnHexHexBytes(d: seq<u8>)
    ensures UnHex(HexBytes(d)) == d
  {
    if d != [] {
      var h := HexBytes(d);
      assert h[2..] == HexBytes(d[1..]);
      UnHexHexBytes(d[1..]);
      assert HexValue(h[0]) == d[0] as nat / 16;
      assert HexValue(h[1]) == d[0] as nat % 16;
    }
  }

  /** `hash_password`: the first 31 digest bytes as 62 lowercase hex digits. */
  function HashPassword(sha: Sha256, password: string): (h: string)
    ensures |h| == 62 && NulFree(h)
    ensures forall i :: 0 <= i < |h| ==> IsHexDigit(h[i])
  {
    HexBytes(sha(password)[..31])
  }

  /** The hash loses only the last digest byte: decoding it gives back the other 31. */
  lemma HashPasswordDecodes(sha: Sha256, password: string)
    ensures UnHex(HashPassword(sha, password)) == sha(password)[..31]
  {
    UnHexHexBytes(sha(password)[..31]);
  }

  /** The hash fits the 63-character field it is stored in, so storing it keeps it intact. */
  lemma HashPasswordStored(sha: Sha256, password: string)
    ensures Truncate(HashPassword(sha, password), 63) == HashPassword(sha, password)
    ensures CStr(HashPassword(sha, password)) == HashPassword(sha, password)
  {
    TruncateFits(HashPassword(sha, password), 63);
  }

  // ---------------------------------------------------------------------------
  // Session identifiers
  // ---------------------------------------------------------------------------

  predicate IsDigit(c: char)
  {
    '0' <= c <= '9'
  }

  /** `std::to_string` of a non-negative clock value. */
  function Decimal(n: nat): (s: string)
    ensures |s| > 0 && forall i :: 0 <= i < |s| ==> IsDigit(s[i])
    ensures n > 0 ==> s[0] != '0'
  {
    if n < 10 then ['0' + n as char] else Decimal(n / 10) + ['0' + (n % 10) as char]
  }

  function ParseDecimal(s: string): nat
    requires forall i :: 0 <= i < |s| ==> IsDigit(s[i])
  {
    if s == [] then 0
    else
      assert IsDigit(s[|s| - 1]);
      10 * ParseDecimal(s[..|s| - 1]) + (s[|s| - 1] as int - '0' as int)
  }

  /** Printing a clock value loses nothing: it parses back. */
  lemma {:induction false} ParseDecimalOfDecimal(n: nat)
    ensures ParseDecimal(Decimal(n)) == n
  {
    if n >= 10 {
      var s := Decimal(n);
      assert s[..|s| - 1] == Decimal(n / 10);
      ParseDecimalOfDecimal(n / 10);
    }
  }

  // ---------------------------------------------------------------------------
  // Operations
  // ---------------------------------------------------------------------------

  /** The answer of `user_login`: the code, the registry afterwards, and the handle written to
      `*session` (none when nothing was written). */
  datatype LoginResult = LoginResult(code: int, reg: Registry, session: Option<Handle>)

  /** `user_login`. `idTime` and `loginTime` are the two clock readings the source takes: one
      for the session identifier, one for the login time. */
  function Login(users: HashTable.Table<UserInfo>, reg: Registry, sha: Sha256,
                 username: Option<CString>, password: Option<CString>,
                 idTime: nat, loginTime: u64): (r: LoginResult)
    requires HashTable.Valid(users)
    ensures r.code in {SUCCESS, ERROR_INVALID_OPERATION, ERROR_NOT_FOUND, ERROR_PERMISSION_DENIED}
    ensures r.code != SUCCESS ==> r.reg == reg && r.session.None?
    ensures (username.None? || password.None?) <==> r.code == ERROR_INVALID_OPERATION
    ensures username.Some? && password.Some? ==>
              (r.code == ERROR_NOT_FOUND <==>
                 HashTable.Get(users, username.value).None? || HashTable.Get(users, username.value).value.isActive == 0)
    ensures r.code == ERROR_PERMISSION_DENIED ==>
              HashPassword(sha, password.value) != CStr(HashTable.Get(users, username.value).value.passwordHash)
    ensures r.code == SUCCESS ==>
              && username.Some? && password.Some?
              && var u := HashTable.Get(users, username.value);
              && u.Some? && u.value.isActive != 0
              && HashPassword(sha, password.value) == CStr(u.value.passwordHash)
              && r.session == Some(reg.nextHandle)
              && r.reg.active == reg.active + [Session(reg.nextHandle, NewSessionInfo(username.value + Decimal(idTime), u.value, loginTime))]
              && (ValidRegistry(reg) ==> ValidRegistry(r.reg))
              && (ValidRegistry(reg) ==> FindSession(r.reg, r.session) == Some(NewSessionInfo(username.value + Decimal(idTime), u.value, loginTime)))
  {
    if username.None? || password.None? then LoginResult(ERROR_INVALID_OPERATION, reg, None)
    else match HashTable.Get(users, username.value)
      case None => LoginResult(ERROR_NOT_FOUND, reg, None)
      case Some(u) =>
        if u.isActive == 0 then LoginResult(ERROR_NOT_FOUND, reg, None)
        else if HashPassword(sha, password.value) != CStr(u.passwordHash) then
          LoginResult(ERROR_PERMISSION_DENIED, reg, None)
        else
          var s := NewSessionInfo(username.value + Decimal(idTime), u, loginTime);
          var h := reg.nextHandle;
          var reg' := Registry(reg.active + [Session(h, s)], h + 1);
          if ValidRegistry(reg) then
            FindRegistered(reg', |reg.active|);
            LoginResult(SUCCESS, reg', Some(h))
          else LoginResult(SUCCESS, reg', Some(h))
  }

  /** The registry with the entry at position `i` erased. */
  function EraseAt(active: seq<Session>, i: nat): (r: seq<Session>)
    requires i < |active|
    ensures |r| == |active| - 1
    ensures forall k :: 0 <= k < |r| ==> r[k] == active[if k < i then k else k + 1]
  {
    active[..i] + active[i + 1..]
  }

  /** `user_logout`: erase the session the handle names; INVALID_SESSION when none does. */
  function Logout(reg: Registry, session: Option<Handle>): (r: (int, Registry))
    requires ValidRegistry(reg)
    ensures r.0 == SUCCESS || r.0 == ERROR_INVALID_SESSION
    ensures r.0 == ERROR_INVALID_SESSION <==> FindSession(reg, session).None?
    ensures r.0 == ERROR_INVALID_SESSION ==> r.1 == reg
    ensures ValidRegistry(r.1) && r.1.nextHandle == reg.nextHandle
    ensures r.0 == SUCCESS ==>
              && |r.1.active| == |reg.active| - 1
              && FindSession(r.1, session).None?
              && Handles(r.1) == Handles(reg) - {session.value}
    ensures forall h: Handle :: Some(h) != session ==> FindSession(r.1, Some(h)) == FindSession(reg, Some(h))
  {
    if FindSession(reg, session).None? then (ERROR_INVALID_SESSION, reg)
    else
      var i := IndexOfHandle(reg.active, session.value).value;
      var reg' := reg.(active := EraseAt(reg.active, i));
      EraseKeeps(reg, i);
      (SUCCESS, reg')
  }

  /** Erasing one registered session keeps every other address bound to its session. */
  lemma EraseKeeps(reg: Registry, i: nat)
    requires ValidRegistry(reg) && i < |reg.active|
    ensures var reg' := reg.(active := EraseAt(reg.active, i));
            && ValidRegistry(reg')
            && Handles(reg') == Handles(reg) - {reg.active[i].handle}
            && FindSession(reg', Some(reg.active[i].handle)).None?
            && forall h: Handle :: h != reg.active[i].handle ==> FindSession(reg', Some(h)) == FindSession(reg, Some(h))
  {
    var a := reg.active;
    var reg' := reg.(active := EraseAt(a, i));
    EraseValid(reg, i);
    EraseHandles(reg, i);
    forall h: Handle | h != a[i].handle ensures FindSession(reg', Some(h)) == FindSession(reg, Some(h)) {
      EraseFind(reg, i, h);
    }
  }

  /** Erasing an entry keeps the addresses fresh and distinct. */
  lemma EraseValid(reg: Registry, i: nat)
    requires ValidRegistry(reg) && i < |reg.active|
    ensures ValidRegistry(reg.(active := EraseAt(reg.active, i)))
  {
    var a := reg.active;
    var b := EraseAt(a, i);
    forall m, n | 0 <= m < n < |b| ensures b[m].handle != b[n].handle {
      var m0, n0 := if m < i then m else m + 1, if n < i then n else n + 1;
      assert b[m] == a[m0] && b[n] == a[n0];
    }
  }

  /** Erasing an entry removes exactly its address. */
  lemma EraseHandles(reg: Registry, i: nat)
    requires ValidRegistry(reg) && i < |reg.active|
    ensures Handles(reg.(active := EraseAt(reg.active, i))) == Handles(reg) - {reg.active[i].handle}
  {
    var a := reg.active;
    var reg' := reg.(active := EraseAt(a, i));
    var b := reg'.active;
    forall x | x in Handles(reg') ensures x in Handles(reg) - {a[i].handle} {
      var k :| 0 <= k < |b| && b[k].handle == x;
      var k0 := if k < i then k else k + 1;
      assert b[k] == a[k0];
    }
    forall x | x in Handles(reg) - {a[i].handle} ensures x in Handles(reg') {
      var k :| 0 <= k < |a| && a[k].handle == x;
      if k < i { assert b[k] == a[k]; } else { assert b[k - 1] == a[k]; }
    }
  }

  lemma EraseFind(reg: Registry, i: nat, h: Handle)
    requires ValidRegistry(reg) && i < |reg.active|
    ensures var reg' := reg.(active := EraseAt(reg.active, i));
            FindSession(reg', Some(h)) == if h == reg.active[i].handle then None else FindSession(reg, Some(h))
  {
    var a := reg.active;
    var reg' := reg.(active := EraseAt(a, i));
    EraseValid(reg, i);
    EraseHandles(reg, i);
    if h != a[i].handle && h in Handles(reg) {
      var k :| 0 <= k < |a| && a[k].handle == h;
      FindRegistered(reg, k);
      var k' := if k < i then k else k - 1;
      assert reg'.active[k'] == a[k];
      FindRegistered(reg', k');
    }
  }

  /** `user_create`: admin only; refuses a name already in the table; otherwise stores an active
      record under the full name with the password's hash. */
  function Create(users: HashTable.Table<UserInfo>, reg: Registry, sha: Sha256, admin: Option<Handle>,
                  username: CString, password: CString, role: u32, now: u64): (r: (int, HashTable.Table<UserInfo>))
    requires HashTable.Valid(users)
    ensures HashTable.Valid(r.1)
    ensures r.0 in {SUCCESS, ERROR_PERMISSION_DENIED, ERROR_FILE_EXISTS}
    ensures r.0 != SUCCESS ==> r.1 == users
    ensures r.0 == ERROR_PERMISSION_DENIED <==> !CheckAdmin(reg, admin)
    ensures CheckAdmin(reg, admin) ==> (r.0 == ERROR_FILE_EXISTS <==> username in HashTable.Keys(users))
    ensures r.0 == SUCCESS ==>
              && HashTable.Keys(r.1) == HashTable.Keys(users) + {username}
              && HashTable.Get(r.1, username) == Some(NewUserInfo(username, HashPassword(sha, password), role, now))
              && forall k :: k != username ==> HashTable.Get(r.1, k) == HashTable.Get(users, k)
  {
    if !CheckAdmin(reg, admin) then (ERROR_PERMISSION_DENIED, users)
    else if HashTable.Get(users, username).Some? then (ERROR_FILE_EXISTS, users)
    else
      var u := NewUserInfo(username, HashPassword(sha, password), role, now);
      var (ok, users') := HashTable.Insert(users, username, u);
      if !ok then (ERROR_INVALID_OPERATION, users) else (SUCCESS, users')
  }

  /** `user_delete`: admin only; NOT_FOUND for a name not in the table; otherwise the key goes.
      The registry is not consulted beyond the admin check, so sessions stay registered. */
  function Delete(users: HashTable.Table<UserInfo>, reg: Registry, admin: Option<Handle>,
                  username: CString): (r: (int, HashTable.Table<UserInfo>))
    requires HashTable.Valid(users)
    ensures HashTable.Valid(r.1)
    ensures r.0 in {SUCCESS, ERROR_PERMISSION_DENIED, ERROR_NOT_FOUND}
    ensures r.0 != SUCCESS ==> r.1 == users
    ensures r.0 == ERROR_PERMISSION_DENIED <==> !CheckAdmin(reg, admin)
    ensures CheckAdmin(reg, admin) ==> (r.0 == ERROR_NOT_FOUND <==> username !in HashTable.Keys(users))
    ensures r.0 == SUCCESS ==>
              && HashTable.Keys(r.1) == HashTable.Keys(users) - {username}
              && r.1.size == users.size - 1
              && forall k :: k != username ==> HashTable.Get(r.1, k) == HashTable.Get(users, k)
  {
    if !CheckAdmin(reg, admin) then (ERROR_PERMISSION_DENIED, users)
    else if HashTable.Get(users, username).None? then (ERROR_NOT_FOUND, users)
    else (SUCCESS, HashTable.Remove(users, username).1)
  }

  /** The records stored under the keys, in the keys' order. */
  function Records(users: HashTable.Table<UserInfo>, ks: seq<string>): (rs: seq<UserInfo>)
    requires HashTable.Valid(users)
    requires forall k :: k in ks ==> k in HashTable.Keys(users)
    ensures |rs| == |ks|
    ensures forall i :: 0 <= i < |ks| ==> HashTable.Get(users, ks[i]) == Some(rs[i])
  {
    if ks == [] then [] else [HashTable.Get(users, ks[0]).value] + Records(users, ks[1..])
  }

  /** Every record copied is a stored one, and every key listed has its record copied. */
  lemma {:induction false} RecordsCover(users: HashTable.Table<UserInfo>, ks: seq<string>)
    requires HashTable.Valid(users)
    requires forall k :: k in ks ==> k in HashTable.Keys(users)
    ensures forall k :: k in ks ==> HashTable.Get(users, k).value in Records(users, ks)
    ensures forall u :: u in Records(users, ks) ==> u in HashTable.Contents(users).Values
  {
    var rs := Records(users, ks);
    forall k | k in ks ensures HashTable.Get(users, k).value in rs {
      var i :| 0 <= i < |ks| && ks[i] == k;
      assert rs[i] == HashTable.Get(users, k).value;
    }
    forall u | u in rs ensures u in HashTable.Contents(users).Values {
      var i :| 0 <= i < |rs| && rs[i] == u;
      assert HashTable.Contents(users)[ks[i]] == u;
    }
  }

  /** `user_list`: admin only; a copy of every stored record, one per key. (Null output
      pointers are not modelled.) */
  function List(users: HashTable.Table<UserInfo>, reg: Registry, admin: Option<Handle>): (r: (int, seq<UserInfo>))
    requires HashTable.Valid(users)
    ensures r.0 == ERROR_PERMISSION_DENIED <==> !CheckAdmin(reg, admin)
    ensures r.0 == ERROR_PERMISSION_DENIED || r.0 == SUCCESS
    ensures r.0 == ERROR_PERMISSION_DENIED ==> r.1 == []
    ensures r.0 == SUCCESS ==>
              && |r.1| == users.size == |HashTable.Keys(users)|
              && (forall u :: u in r.1 ==> u in HashTable.Contents(users).Values)
              && (forall k :: k in HashTable.Keys(users) ==> HashTable.Get(users, k).value in r.1)
  {
    if !CheckAdmin(reg, admin) then (ERROR_PERMISSION_DENIED, [])
    else
      var ks := HashTable.AllKeys(users);
      HashTable.AllKeysSpec(users);
      RecordsCover(users, ks);
      (SUCCESS, Records(users, ks))
  }

  // ---------------------------------------------------------------------------
  // Properties across operations
  // ---------------------------------------------------------------------------

  /** A user an admin has just created can log in with the password given. */
  lemma CreateThenLogin(users: HashTable.Table<UserInfo>, reg: Registry, sha: Sha256, admin: Option<Handle>,
                        username: CString, password: CString, role: u32, now: u64, idTime: nat, loginTime: u64)
    requires HashTable.Valid(users)
    requires Create(users, reg, sha, admin, username, password, role, now).0 == SUCCESS
    ensures Login(Create(users, reg, sha, admin, username, password, role, now).1, reg, sha,
                  Some(username), Some(password), idTime, loginTime).code == SUCCESS
  {
    HashPasswordStored(sha, password);
  }

  /** Login with the wrong password (one whose hash differs) is refused. */
  lemma CreateThenWrongPassword(users: HashTable.Table<UserInfo>, reg: Registry, sha: Sha256, admin: Option<Handle>,
                                username: CString, password: CString, other: CString, role: u32, now: u64,
                                idTime: nat, loginTime: u64)
    requires HashTable.Valid(users)
    requires Create(users, reg, sha, admin, username, password, role, now).0 == SUCCESS
    requires HashPassword(sha, other) != HashPassword(sha, password)
    ensures Login(Create(users, reg, sha, admin, username, password, role, now).1, reg, sha,
                  Some(username), Some(other), idTime, loginTime).code == ERROR_PERMISSION_DENIED
  {
    HashPasswordStored(sha, password);
  }

  /** After a deletion the name no longer logs in, and it can be created again. */
  lemma DeleteThenLogin(users: HashTable.Table<UserInfo>, reg: Registry, sha: Sha256, admin: Option<Handle>,
                        username: CString, password: CString, role: u32, now: u64, idTime: nat, loginTime: u64)
    requires HashTable.Valid(users)
    requires Delete(users, reg, admin, username).0 == SUCCESS
    ensures Login(Delete(users, reg, admin, username).1, reg, sha, Some(username), Some(password), idTime, loginTime).code
            == ERROR_NOT_FOUND
    ensures Create(Delete(users, reg, admin, username).1, reg, sha, admin, username, password, role, now).0 == SUCCESS
  {
  }

  /** A second logout of the same handle is refused. */
  lemma LogoutTwice(reg: Registry, session: Option<Handle>)
    requires ValidRegistry(reg)
    requires Logout(reg, session).0 == SUCCESS
    ensures Logout(Logout(reg, session).1, session).0 == ERROR_INVALID_SESSION
  {
  }

  /** A session lives on when its user is deleted: the snapshot taken at login is still
      registered and answers `get_session_info`, while a new login under the name fails. */
  lemma SessionOutlivesUser(users: HashTable.Table<UserInfo>, reg: Registry, sha: Sha256,
                            username: CString, password: CString, idTime: nat, loginTime: u64,
                            admin: Option<Handle>)
    requires HashTable.Valid(users) && ValidRegistry(reg)
    requires Login(users, reg, sha, Some(username), Some(password), idTime, loginTime).code == SUCCESS
    ensures var l := Login(users, reg, sha, Some(username), Some(password), idTime, loginTime);
            var d := Delete(users, l.reg, admin, username);
            d.0 == SUCCESS ==>
              && GetSessionInfo(l.reg, l.session).0 == SUCCESS
              && GetSessionInfo(l.reg, l.session).1.value.user == HashTable.Get(users, username).value
              && Login(d.1, l.reg, sha, Some(username), Some(password), idTime, loginTime).code == ERROR_NOT_FOUND
  {
  }
}
