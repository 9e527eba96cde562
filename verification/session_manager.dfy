/** The server's table from client socket to login handle: a singly linked list of
    `ClientSession` nodes whose new entries are linked in at the head. */
module SessionManager {
  import opened Base

  /** One node of the list; `S` is the opaque handle the storage layer gave out. */
  datatype ClientSession<S> = ClientSession(clientSock: int, session: S)

  /** The sockets listed. */
  function Sockets<S>(l: seq<ClientSession<S>>): set<int>
  {
    set i | 0 <= i < |l| :: l[i].clientSock
  }

  /** The sockets of a non-empty list: its head's and those of the rest. */
  lemma SocketsCons<S>(l: seq<ClientSession<S>>)
    requires |l| > 0
    ensures Sockets(l) == {l[0].clientSock} + Sockets(l[1..])
  {
    assert forall i :: 0 < i < |l| ==> l[i] == l[1..][i - 1];
    forall x | x in Sockets(l) ensures x in {l[0].clientSock} + Sockets(l[1..]) {
      var i :| 0 <= i < |l| && l[i].clientSock == x;
      if i > 0 {
        assert l[1..][i - 1].clientSock == x;
      }
    }
  }

  /** Each socket is listed at most once. */
  predicate UniqueSockets<S>(l: seq<ClientSession<S>>)
  {
    forall i, j :: 0 <= i < j < |l| ==> l[i].clientSock != l[j].clientSock
  }

  /** `get_session`: the handle of the first node for the socket, or null. */
  function GetSession<S(==)>(l: seq<ClientSession<S>>, sock: int): (r: Option<S>)
    ensures r.None? <==> sock !in Sockets(l)
    ensures r.Some? ==> exists i :: 0 <= i < |l| && l[i] == ClientSession(sock, r.value)
                                   && forall j :: 0 <= j < i ==> l[j].clientSock != sock
  {
    if l == [] then None
    else if l[0].clientSock == sock then Some(l[0].session)
    else
      var r := GetSession(l[1..], sock);
      SocketsCons(l);
      if r.Some? then
        var i :| 0 <= i < |l[1..]| && l[1..][i] == ClientSession(sock, r.value)
                 && forall j :: 0 <= j < i ==> l[1..][j].clientSock != sock;
        assert l[i + 1] == ClientSession(sock, r.value);
        r
      else r
  }

  /** With unique sockets the handle found is the one stored at the socket's node. */
  lemma GetSessionAt<S>(l: seq<ClientSession<S>>, i: nat)
    requires UniqueSockets(l) && i < |l|
    ensures GetSession(l, l[i].clientSock) == Some(l[i].session)
  {
    var r := GetSession(l, l[i].clientSock);
    assert l[i].clientSock in Sockets(l);
    var k :| 0 <= k < |l| && l[k] == ClientSession(l[i].clientSock, r.value)
             && forall j :: 0 <= j < k ==> l[j].clientSock != l[i].clientSock;
    assert k == i;
  }

  /** `set_session`: overwrite the handle of the socket's node in place, or link a new node
      at the head when the socket is not listed. */
  function SetSession<S(==)>(l: seq<ClientSession<S>>, sock: int, s: S): (r: seq<ClientSession<S>>)
    ensures sock in Sockets(l) ==> |r| == |l| && Sockets(r) == Sockets(l)
    ensures sock !in Sockets(l) ==> r == [ClientSession(sock, s)] + l
    ensures GetSession(r, sock) == Some(s)
    ensures forall k :: k != sock ==> GetSession(r, k) == GetSession(l, k)
    ensures UniqueSockets(l) ==> UniqueSockets(r)
  {
    if sock !in Sockets(l) then
      var r := [ClientSession(sock, s)] + l;
      assert r[1..] == l;
      r
    else
      SetInPlace(l, sock, s)
  }

  /** The loop of `set_session` that finds the socket's node and overwrites it. */
  function SetInPlace<S(==)>(l: seq<ClientSession<S>>, sock: int, s: S): (r: seq<ClientSession<S>>)
    requires sock in Sockets(l)
    ensures |r| == |l| && Sockets(r) == Sockets(l)
    ensures forall i :: 0 <= i < |l| ==> r[i].clientSock == l[i].clientSock
    ensures GetSession(r, sock) == Some(s)
    ensures forall k :: k != sock ==> GetSession(r, k) == GetSession(l, k)
  {
    if l[0].clientSock == sock then
      var r := [ClientSession(sock, s)] + l[1..];
      assert forall i :: 0 < i < |l| ==> r[i] == l[i];
      SocketsCons(l);
      SocketsCons(r);
      assert forall k :: k != sock ==> GetSession(r, k) == GetSession(l, k) by {
        assert r[1..] == l[1..];
      }
      r
    else
      var rest := l[1..];
      assert sock in Sockets(rest) by {
        var i :| 0 <= i < |l| && l[i].clientSock == sock;
        assert rest[i - 1] == l[i];
      }
      var tail := SetInPlace(rest, sock, s);
      var r := [l[0]] + tail;
      assert r[1..] == tail;
      SocketsCons(l);
      SocketsCons(r);
      assert l[1..] == rest;
      r
  }

  /** `remove_session`: unlink the first node for the socket; nothing changes if there is none. */
  function RemoveSession<S(==)>(l: seq<ClientSession<S>>, sock: int): (r: seq<ClientSession<S>>)
    ensures sock !in Sockets(l) ==> r == l
    ensures sock in Sockets(l) ==> |r| == |l| - 1
    ensures forall k :: k != sock ==> GetSession(r, k) == GetSession(l, k)
    ensures UniqueSockets(l) ==> UniqueSockets(r) && GetSession(r, sock).None?
    ensures Sockets(r) <= Sockets(l)
  {
    if l == [] then []
    else if l[0].clientSock == sock then
      var r := l[1..];
      SocketsCons(l);
      r
    else
      var rest := l[1..];
      var tail := RemoveSession(rest, sock);
      var r := [l[0]] + tail;
      assert r[1..] == tail;
      SocketsCons(l);
      SocketsCons(r);
      assert UniqueSockets(l) ==> UniqueSockets(r) by {
        if UniqueSockets(l) {
          assert UniqueSockets(rest) by {
            assert forall i :: 0 <= i < |rest| ==> rest[i] == l[i + 1];
          }
        }
      }
      r
  }

  /** Setting then removing a socket that was not listed gives back the original list. */
  lemma SetThenRemove<S>(l: seq<ClientSession<S>>, sock: int, s: S)
    requires sock !in Sockets(l)
    ensures RemoveSession(SetSession(l, sock, s), sock) == l
  {
  }
}
