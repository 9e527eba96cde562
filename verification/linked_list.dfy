/** The singly linked list used for a directory's children, as the sequence of its elements
    read from `head` onwards. */
module LinkedList {

  /** A fresh list has no elements (`head == nullptr`). */
  function Empty<T>(): (s: seq<T>)
    ensures |s| == 0
  {
    []
  }

  /** The position of the first element equal to `d`. */
  function IndexOf<T(==)>(s: seq<T>, d: T): (i: nat)
    requires d in s
    ensures i < |s| && s[i] == d
    ensures forall j :: 0 <= j < i ==> s[j] != d
  {
    if s[0] == d then 0 else 1 + IndexOf(s[1..], d)
  }

  /** `push_back`: walk to the last node and link a new node after it. */
  function PushBack<T>(s: seq<T>, d: T): (r: seq<T>)
    ensures |r| == |s| + 1
    ensures r[..|s|] == s && r[|s|] == d
  {
    if s == [] then [d] else [s[0]] + PushBack(s[1..], d)
  }

  /** `remove`: unlink the first node whose data equals `d`, or change nothing. */
  function Remove<T(==)>(s: seq<T>, d: T): (r: seq<T>)
    ensures d !in s ==> r == s
    ensures d in s ==> r == s[..IndexOf(s, d)] + s[IndexOf(s, d) + 1..]
    ensures |r| == if d in s then |s| - 1 else |s|
  {
    if s == [] then []
    else if s[0] == d then s[1..]
    else
      var t := s[1..];
      if d in t then
        var i := IndexOf(t, d);
        assert IndexOf(s, d) == i + 1;
        assert s[..i + 1] == [s[0]] + t[..i] && s[i + 2..] == t[i + 1..];
        ConsAssoc(s[0], t[..i], t[i + 1..]);
        [s[0]] + Remove(t, d)
      else
        [s[0]] + Remove(t, d)
  }

  lemma ConsAssoc<T>(x: T, a: seq<T>, b: seq<T>)
    ensures [x] + (a + b) == [x] + a + b
  {
  }

  /** Removing drops exactly one copy of `d` when there is one. */
  lemma RemoveMultiset<T>(s: seq<T>, d: T)
    ensures multiset(Remove(s, d)) == if d in s then multiset(s) - multiset{d} else multiset(s)
  {
    if d in s {
      var i := IndexOf(s, d);
      assert s == s[..i] + [s[i]] + s[i + 1..];
    }
  }

  /** Removing an element that was just appended to a list not containing it restores the list. */
  lemma RemoveAfterPushBack<T>(s: seq<T>, d: T)
    requires d !in s
    ensures Remove(PushBack(s, d), d) == s
  {
    var r := PushBack(s, d);
    assert r == s + [d];
    assert IndexOf(r, d) == |s|;
  }
}
