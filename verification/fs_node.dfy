/** The in-memory namespace tree (`FSNode`). A node owns its entry, its payload bytes, and —
    only when it was built for a directory — a linked list of children. Parent pointers are not
    stored: a node's parent is the node one level up on the path that reaches it, and the root
    has none. */
module FsNode {
  import opened Base
  import opened OdfTypes
  import LinkedList

  /** `children`: null (`NoList`) or a list of child nodes in insertion order. */
  datatype ChildList = NoList | List(nodes: seq<Node>)

  datatype Node = Node(entry: FileEntry, data: seq<char>, children: ChildList)

  /** The constructor: a child list exactly when the entry's type byte says DIRECTORY. */
  function NewNode(e: FileEntry): (n: Node)
    ensures n.entry == e && n.data == []
    ensures n.children.List? <==> IsDirectory(e)
    ensures n.children.List? ==> n.children.nodes == []
  {
    Node(e, [], if IsDirectory(e) then List(LinkedList.Empty()) else NoList)
  }

  /** The children in list order; none when the list is null. */
  function Kids(n: Node): (r: seq<Node>)
    ensures forall i :: 0 <= i < |r| ==> r[i] < n
  {
    match n.children
    case NoList => []
    case List(cs) => cs
  }

  /** `child->entry->name == name`: the stored name read as a C string equals `name`. */
  predicate Named(c: Node, name: string)
  {
    CStr(c.entry.name) == name
  }

  /** The loop of `getChild` over the list from position `k`. */
  function FindFrom(cs: seq<Node>, name: string, k: nat): (r: Option<nat>)
    requires k <= |cs|
    ensures r.Some? ==> k <= r.value < |cs| && Named(cs[r.value], name)
                        && forall j :: k <= j < r.value ==> !Named(cs[j], name)
    ensures r.None? ==> forall j :: k <= j < |cs| ==> !Named(cs[j], name)
    decreases |cs| - k
  {
    if k == |cs| then None
    else if Named(cs[k], name) then Some(k)
    else FindFrom(cs, name, k + 1)
  }

  /** The position of the child `getChild(name)` returns. */
  function ChildIndex(n: Node, name: string): (r: Option<nat>)
    ensures r.Some? ==> r.value < |Kids(n)| && Named(Kids(n)[r.value], name)
                        && forall j :: 0 <= j < r.value ==> !Named(Kids(n)[j], name)
    ensures r.None? <==> forall j :: 0 <= j < |Kids(n)| ==> !Named(Kids(n)[j], name)
  {
    match n.children
    case NoList => None
    case List(cs) => FindFrom(cs, name, 0)
  }

  /** `getChild(name)`: the first child in insertion order whose name is `name`; null when
      there is none or the node has no child list. */
  function GetChild(n: Node, name: string): (r: Option<Node>)
    ensures r.None? <==> forall j :: 0 <= j < |Kids(n)| ==> !Named(Kids(n)[j], name)
    ensures r.Some? ==> exists i :: 0 <= i < |Kids(n)| && Kids(n)[i] == r.value && Named(r.value, name)
                                   && forall j :: 0 <= j < i ==> !Named(Kids(n)[j], name)
  {
    match ChildIndex(n, name)
    case None => None
    case Some(i) => Some(Kids(n)[i])
  }

  /** `findChild(name)`: forwards to `getChild`. */
  function FindChild(n: Node, name: string): (r: Option<Node>)
    ensures r == GetChild(n, name)
    ensures r.None? <==> forall j :: 0 <= j < |Kids(n)| ==> !Named(Kids(n)[j], name)
  {
    GetChild(n, name)
  }

  /** `addChild(child)`: append at the end of a directory's list (no duplicate check); on any
      other node nothing happens. */
  function AddChild(n: Node, c: Node): (r: Node)
    ensures IsDirectory(n.entry) && n.children.List? ==> r == n.(children := List(Kids(n) + [c]))
    ensures !(IsDirectory(n.entry) && n.children.List?) ==> r == n
  {
    if IsDirectory(n.entry) && n.children.List? then
      var s := LinkedList.PushBack(n.children.nodes, c);
      assert s == n.children.nodes + [c];
      n.(children := List(s))
    else n
  }

  /** The node with the child at position `i` unlinked. */
  function Without(n: Node, i: nat): (r: Node)
    requires i < |Kids(n)|
    ensures r.entry == n.entry && r.data == n.data && r.children.List?
    ensures Kids(r) == Kids(n)[..i] + Kids(n)[i + 1..]
  {
    n.(children := List(Kids(n)[..i] + Kids(n)[i + 1..]))
  }

  /** `children->remove(child)` for the child `getChild` found unlinks exactly that position:
      an equal node earlier in the list would carry the same name. */
  lemma RemoveFound(n: Node, name: string)
    requires ChildIndex(n, name).Some?
    ensures n.children.List?
    ensures var i := ChildIndex(n, name).value;
            LinkedList.Remove(n.children.nodes, Kids(n)[i]) == Kids(n)[..i] + Kids(n)[i + 1..]
  {
    var cs := n.children.nodes;
    var i := ChildIndex(n, name).value;
    assert cs[i] in cs;
    var k := LinkedList.IndexOf(cs, cs[i]);
  }

  /** `removeChild(name)`: false and no change when no child has the name; otherwise the first
      such child, with its whole subtree, is gone and true is returned. */
  function RemoveChild(n: Node, name: string): (r: (bool, Node))
    ensures r.0 <==> ChildIndex(n, name).Some?
    ensures !r.0 ==> r.1 == n
    ensures r.0 ==> r.1 == Without(n, ChildIndex(n, name).value)
  {
    match GetChild(n, name)
    case None => (false, n)
    case Some(c) =>
      RemoveFound(n, name);
      (true, n.(children := List(LinkedList.Remove(n.children.nodes, c))))
  }

  /** `detachChild(name)`: as `removeChild`, but the unlinked child is handed back intact. */
  function DetachChild(n: Node, name: string): (r: (Option<Node>, Node))
    ensures r.0.None? <==> ChildIndex(n, name).None?
    ensures r.0.None? ==> r.1 == n
    ensures r.0.Some? ==> r.0.value == Kids(n)[ChildIndex(n, name).value]
                          && r.1 == Without(n, ChildIndex(n, name).value)
  {
    match GetChild(n, name)
    case None => (None, n)
    case Some(c) =>
      RemoveFound(n, name);
      (Some(c), n.(children := List(LinkedList.Remove(n.children.nodes, c))))
  }

  /** `addChild` does not look at names: a directory may end up with two children of the same
      name, and `getChild` then only ever finds the earlier one. */
  lemma AddChildKeepsDuplicates(n: Node, c: Node, name: string)
    requires IsDirectory(n.entry) && n.children.List?
    requires ChildIndex(n, name).Some? && Named(c, name)
    ensures |Kids(AddChild(n, c))| == |Kids(n)| + 1
    ensures Named(Kids(AddChild(n, c))[|Kids(n)|], name)
    ensures ChildIndex(AddChild(n, c), name) == ChildIndex(n, name)
  {
    var r := AddChild(n, c);
    var i := ChildIndex(n, name).value;
    assert Kids(r)[i] == Kids(n)[i];
  }

  /** Detaching then adding back at the end permutes the children; only the found child moves. */
  lemma DetachThenAdd(n: Node, name: string)
    requires IsDirectory(n.entry) && n.children.List? && ChildIndex(n, name).Some?
    ensures var (c, m) := DetachChild(n, name);
            var i := ChildIndex(n, name).value;
            c.Some? && Kids(AddChild(m, c.value)) == Kids(n)[..i] + Kids(n)[i + 1..] + [Kids(n)[i]]
  {
  }

  // ---------------------------------------------------------------- sizes

  /** The number of nodes in the subtree. */
  function Size(n: Node): nat
  {
    match n.children
    case NoList => 1
    case List(cs) => 1 + SizeAll(cs)
  }

  function SizeAll(cs: seq<Node>): nat
  {
    if cs == [] then 0 else Size(cs[0]) + SizeAll(cs[1..])
  }

  lemma {:induction false} SizeAllAppend(a: seq<Node>, b: seq<Node>)
    ensures SizeAll(a + b) == SizeAll(a) + SizeAll(b)
    decreases |a|
  {
    if a == [] {
      assert a + b == b;
    } else {
      assert (a + b)[1..] == a[1..] + b;
      SizeAllAppend(a[1..], b);
    }
  }

  /** Unlinking a child loses exactly the nodes of its subtree. */
  lemma WithoutSize(n: Node, i: nat)
    requires i < |Kids(n)|
    ensures Size(Without(n, i)) == Size(n) - Size(Kids(n)[i])
  {
    var cs := Kids(n);
    assert cs == cs[..i] + [cs[i]] + cs[i + 1..];
    SizeAllAppend(cs[..i] + [cs[i]], cs[i + 1..]);
    SizeAllAppend(cs[..i], [cs[i]]);
    SizeAllAppend(cs[..i], cs[i + 1..]);
    assert SizeAll([cs[i]]) == Size(cs[i]) by {
      assert [cs[i]][1..] == [];
    }
  }

  // ---------------------------------------------------------------- locations

  /** A node is addressed by the child positions on the way down from the root. */
  type Loc = seq<nat>

  /** The location without its last step: where the node's parent is. */
  function Up(l: Loc): Loc
    requires |l| > 0
  {
    l[..|l| - 1]
  }

  function Last(l: Loc): nat
    requires |l| > 0
  {
    l[|l| - 1]
  }

  predicate ValidLoc(t: Node, l: Loc)
    decreases |l|, 0
  {
    |l| == 0 || (ValidLoc(t, Up(l)) && Last(l) < |Kids(At(t, Up(l)))|)
  }

  /** The node at a location. */
  function At(t: Node, l: Loc): Node
    requires ValidLoc(t, l)
    decreases |l|, 1
  {
    if |l| == 0 then t else Kids(At(t, Up(l)))[Last(l)]
  }

  /** One more step down from a valid location. */
  lemma AtSnoc(t: Node, l: Loc, i: nat)
    requires ValidLoc(t, l) && i < |Kids(At(t, l))|
    ensures ValidLoc(t, l + [i]) && At(t, l + [i]) == Kids(At(t, l))[i]
  {
    assert Up(l + [i]) == l && Last(l + [i]) == i;
  }

  /** Prefixes of valid locations are valid. */
  lemma {:induction false} ValidLocPrefix(t: Node, l: Loc, k: nat)
    requires ValidLoc(t, l) && k <= |l|
    ensures ValidLoc(t, l[..k])
    decreases |l|
  {
    if k < |l| {
      assert Up(l)[..k] == l[..k];
      ValidLocPrefix(t, Up(l), k);
    } else {
      assert l[..k] == l;
    }
  }

  /** The node with its child at position `i` replaced by `x`. */
  function WithKid(n: Node, i: nat, x: Node): (r: Node)
    requires i < |Kids(n)|
    ensures r.entry == n.entry && r.data == n.data && Kids(r) == Kids(n)[i := x]
  {
    n.(children := List(Kids(n)[i := x]))
  }

  /** The tree with the node at `l` replaced by `x`; everything off that path is shared. */
  function ReplaceAt(t: Node, l: Loc, x: Node): (r: Node)
    requires ValidLoc(t, l)
    decreases |l|
  {
    if |l| == 0 then x
    else ReplaceAt(t, Up(l), WithKid(At(t, Up(l)), Last(l), x))
  }

  /** After replacing, the location is still there and holds the replacement. */
  lemma {:induction false} ReplaceAtAt(t: Node, l: Loc, x: Node)
    requires ValidLoc(t, l)
    ensures ValidLoc(ReplaceAt(t, l, x), l) && At(ReplaceAt(t, l, x), l) == x
    ensures |l| > 0 ==> ReplaceAt(t, l, x).entry == t.entry
    decreases |l|
  {
    if |l| > 0 {
      var y := WithKid(At(t, Up(l)), Last(l), x);
      ReplaceAtAt(t, Up(l), y);
    }
  }

  /** Append `c` to the children of the node at `l` (by `addChild`). */
  function AppendAt(t: Node, l: Loc, c: Node): (r: Node)
    requires ValidLoc(t, l)
    ensures ValidLoc(r, l) && At(r, l) == AddChild(At(t, l), c)
  {
    ReplaceAtAt(t, l, AddChild(At(t, l), c));
    ReplaceAt(t, l, AddChild(At(t, l), c))
  }

  /** Unlink the node at a non-root location from its parent. */
  function RemoveAt(t: Node, l: Loc): (r: Node)
    requires ValidLoc(t, l) && |l| > 0
    ensures ValidLoc(r, Up(l)) && At(r, Up(l)) == Without(At(t, Up(l)), Last(l))
  {
    ReplaceAtAt(t, Up(l), Without(At(t, Up(l)), Last(l)));
    ReplaceAt(t, Up(l), Without(At(t, Up(l)), Last(l)))
  }

  /** Replacing a child changes a node's size by the difference of the two subtrees. */
  lemma WithKidSize(n: Node, i: nat, x: Node)
    requires i < |Kids(n)|
    ensures Size(WithKid(n, i, x)) + Size(Kids(n)[i]) == Size(n) + Size(x)
  {
    var cs := Kids(n);
    var cs' := cs[i := x];
    assert cs == cs[..i] + [cs[i]] + cs[i + 1..];
    assert cs' == cs[..i] + [x] + cs[i + 1..];
    SizeAllAppend(cs[..i] + [cs[i]], cs[i + 1..]);
    SizeAllAppend(cs[..i], [cs[i]]);
    SizeAllAppend(cs[..i] + [x], cs[i + 1..]);
    SizeAllAppend(cs[..i], [x]);
    assert [cs[i]][1..] == [] && [x][1..] == [];
  }

  /** Replacing a node changes the tree's size by the difference of the two subtrees. */
  lemma {:induction false} ReplaceAtSize(t: Node, l: Loc, x: Node)
    requires ValidLoc(t, l)
    ensures Size(ReplaceAt(t, l, x)) + Size(At(t, l)) == Size(t) + Size(x)
    decreases |l|
  {
    if |l| > 0 {
      var y := WithKid(At(t, Up(l)), Last(l), x);
      ReplaceAtSize(t, Up(l), y);
      WithKidSize(At(t, Up(l)), Last(l), x);
    }
  }

  /** Unlinking the node at `l` takes its whole subtree out of the tree. */
  lemma RemoveAtSize(t: Node, l: Loc)
    requires ValidLoc(t, l) && |l| > 0
    ensures Size(RemoveAt(t, l)) == Size(t) - Size(At(t, l))
  {
    ReplaceAtSize(t, Up(l), Without(At(t, Up(l)), Last(l)));
    WithoutSize(At(t, Up(l)), Last(l));
  }

  // ---------------------------------------------------------------- walking

  /** Follow `names` down from the node at `cur`, one `getChild` per name; null as soon as one
      is missing. This is the walk every path resolver makes once it has picked its names. */
  function Walk(t: Node, cur: Loc, names: seq<string>): (r: Option<Loc>)
    requires ValidLoc(t, cur)
    ensures r.Some? ==> ValidLoc(t, r.value)
    decreases names
  {
    if names == [] then Some(cur)
    else match ChildIndex(At(t, cur), names[0])
      case None => None
      case Some(i) =>
        AtSnoc(t, cur, i);
        Walk(t, cur + [i], names[1..])
  }

  /** A successful walk goes one level down per name, extending the location it started at. */
  lemma {:induction false} WalkShape(t: Node, cur: Loc, names: seq<string>)
    requires ValidLoc(t, cur) && Walk(t, cur, names).Some?
    ensures |Walk(t, cur, names).value| == |cur| + |names|
    ensures Walk(t, cur, names).value[..|cur|] == cur
    decreases names
  {
    var l := Walk(t, cur, names).value;
    if names == [] {
      assert l[..|cur|] == cur;
    } else {
      var i := WalkFirst(t, cur, names);
      WalkShape(t, cur + [i], names[1..]);
      assert l[..|cur|] == (l[..|cur| + 1])[..|cur|];
    }
  }

  /** One step of a walk: the first name's child, then the rest of the names from there. */
  lemma WalkCons(t: Node, cur: Loc, names: seq<string>, i: nat)
    requires ValidLoc(t, cur) && names != [] && ChildIndex(At(t, cur), names[0]) == Some(i)
    ensures ValidLoc(t, cur + [i]) && At(t, cur + [i]) == Kids(At(t, cur))[i]
    ensures Walk(t, cur, names) == Walk(t, cur + [i], names[1..])
  {
    AtSnoc(t, cur, i);
  }

  /** A walk whose first name is found continues from that child with the other names. */
  lemma WalkConsFound(t: Node, cur: Loc, name: string, rest: seq<string>, i: nat)
    requires ValidLoc(t, cur) && ChildIndex(At(t, cur), name) == Some(i)
    ensures ValidLoc(t, cur + [i]) && Walk(t, cur, [name] + rest) == Walk(t, cur + [i], rest)
  {
    WalkCons(t, cur, [name] + rest, i);
    assert ([name] + rest)[1..] == rest;
  }

  /** A walk whose first name is not found fails. */
  lemma WalkConsMissing(t: Node, cur: Loc, name: string, rest: seq<string>)
    requires ValidLoc(t, cur) && ChildIndex(At(t, cur), name).None?
    ensures Walk(t, cur, [name] + rest).None?
  {
    assert ([name] + rest)[0] == name;
  }

  /** A successful walk of at least one name starts at the child of the first name. */
  lemma WalkFirst(t: Node, cur: Loc, names: seq<string>) returns (i: nat)
    requires ValidLoc(t, cur) && names != [] && Walk(t, cur, names).Some?
    ensures ChildIndex(At(t, cur), names[0]) == Some(i) && ValidLoc(t, cur + [i])
    ensures Walk(t, cur, names) == Walk(t, cur + [i], names[1..])
  {
    i := ChildIndex(At(t, cur), names[0]).value;
    WalkCons(t, cur, names, i);
  }

  /** The whole walk splits at any point into two walks. */
  lemma {:induction false} WalkAppend(t: Node, cur: Loc, a: seq<string>, b: seq<string>)
    requires ValidLoc(t, cur)
    ensures Walk(t, cur, a + b) == match Walk(t, cur, a) case None => None case Some(l) => Walk(t, l, b)
    decreases a
  {
    if a == [] {
      assert a + b == b;
    } else {
      assert (a + b)[0] == a[0] && (a + b)[1..] == a[1..] + b;
      match ChildIndex(At(t, cur), a[0])
      case None =>
      case Some(i) =>
        AtSnoc(t, cur, i);
        WalkAppend(t, cur + [i], a[1..], b);
    }
  }

  /** The last step of a successful walk: the walk without the last name reaches the parent,
      and `getChild` of the last name there finds the final node. */
  lemma {:induction false} WalkLast(t: Node, cur: Loc, names: seq<string>, l: Loc)
    requires ValidLoc(t, cur) && names != [] && Walk(t, cur, names) == Some(l)
    ensures |l| > 0 && Walk(t, cur, names[..|names| - 1]) == Some(Up(l))
    ensures ValidLoc(t, Up(l)) && ChildIndex(At(t, Up(l)), names[|names| - 1]) == Some(Last(l))
    decreases names
  {
    var i := WalkFirst(t, cur, names);
    WalkShape(t, cur, names);
    if |names| == 1 {
      WalkOne(t, cur, names, i, l);
    } else {
      WalkLast(t, cur + [i], names[1..], l);
      WalkFront(t, cur, names, i);
    }
  }

  /** A location relative to `cur`, made absolute. */
  function Below(cur: Loc, o: Option<Loc>): (r: Option<Loc>)
    ensures r.None? <==> o.None?
    ensures r.Some? ==> r.value == cur + o.value
  {
    match o
    case None => None
    case Some(l) => Some(cur + l)
  }

  /** Placing below `cur + a` is placing below `a`, then below `cur`. */
  lemma BelowBelow(cur: Loc, a: Loc, o: Option<Loc>)
    ensures Below(cur + a, o) == Below(cur, Below(a, o))
  {
    if o.Some? {
      assert cur + a + o.value == cur + (a + o.value);
    }
  }

  /** The same walk seen from the node it starts at: the child positions it goes through,
      relative to that node. */
  function WalkFrom(n: Node, names: seq<string>): Option<Loc>
    decreases names
  {
    if names == [] then Some([])
    else match ChildIndex(n, names[0])
      case None => None
      case Some(i) => Below([i], WalkFrom(Kids(n)[i], names[1..]))
  }

  /** One step of the walk from a node. */
  lemma WalkFromCons(n: Node, name: string, rest: seq<string>)
    ensures WalkFrom(n, [name] + rest) == match ChildIndex(n, name)
                                          case None => None
                                          case Some(i) => Below([i], WalkFrom(Kids(n)[i], rest))
  {
    assert ([name] + rest)[0] == name && ([name] + rest)[1..] == rest;
  }

  /** A walk inside the tree is the walk from the node it starts at, placed below it. */
  lemma {:induction false} WalkFromAt(t: Node, cur: Loc, names: seq<string>)
    requires ValidLoc(t, cur)
    ensures Walk(t, cur, names) == Below(cur, WalkFrom(At(t, cur), names))
    decreases names
  {
    if names == [] {
      assert cur + [] == cur;
    } else {
      match ChildIndex(At(t, cur), names[0])
      case None =>
      case Some(i) =>
        WalkCons(t, cur, names, i);
        WalkFromAt(t, cur + [i], names[1..]);
        BelowBelow(cur, [i], WalkFrom(Kids(At(t, cur))[i], names[1..]));
    }
  }

  /** From the root, both walks give the same location. */
  lemma WalkFromRoot(t: Node, names: seq<string>)
    ensures Walk(t, [], names) == WalkFrom(t, names)
  {
    WalkFromAt(t, [], names);
    var o := WalkFrom(t, names);
    if o.Some? {
      assert [] + o.value == o.value;
    }
  }

  /** The walk of a single name. */
  lemma WalkOne(t: Node, cur: Loc, names: seq<string>, i: nat, l: Loc)
    requires ValidLoc(t, cur) && |names| == 1 && ChildIndex(At(t, cur), names[0]) == Some(i)
    requires Walk(t, cur, names) == Some(l)
    ensures l == cur + [i] && Walk(t, cur, names[..0]) == Some(cur)
  {
    WalkCons(t, cur, names, i);
    assert names[1..] == [] && names[..0] == [];
  }

  /** The walk without the last name takes the same first step. */
  lemma WalkFront(t: Node, cur: Loc, names: seq<string>, i: nat)
    requires ValidLoc(t, cur) && |names| > 1 && ChildIndex(At(t, cur), names[0]) == Some(i)
    ensures ValidLoc(t, cur + [i])
    ensures Walk(t, cur, names[..|names| - 1]) == Walk(t, cur + [i], names[1..][..|names| - 2])
    ensures names[1..][|names| - 2] == names[|names| - 1]
  {
    var front := names[..|names| - 1];
    assert front[0] == names[0] && front[1..] == names[1..][..|names| - 2];
    WalkCons(t, cur, front, i);
  }

  /** A walk that reaches `p` with the names before position `k` but finds no child named
      `names[k]` there fails as a whole. */
  lemma {:induction false} WalkFailsAt(t: Node, cur: Loc, names: seq<string>, k: nat, p: Loc)
    requires ValidLoc(t, cur) && k < |names| && Walk(t, cur, names[..k]) == Some(p)
    requires ChildIndex(At(t, p), names[k]).None?
    ensures Walk(t, cur, names).None?
  {
    var rest := names[k..];
    assert names[..k] + rest == names;
    assert Walk(t, p, rest).None? by {
      WalkMissing(t, p, rest);
    }
    WalkAppend(t, cur, names[..k], rest);
  }

  /** A walk whose first name is missing fails. */
  lemma WalkMissing(t: Node, p: Loc, names: seq<string>)
    requires ValidLoc(t, p) && names != [] && ChildIndex(At(t, p), names[0]).None?
    ensures Walk(t, p, names).None?
  {
  }

  /** A failing walk has a first name that is missing where the walk has got to. */
  lemma {:induction false} WalkFailure(t: Node, cur: Loc, names: seq<string>) returns (k: nat)
    requires ValidLoc(t, cur) && Walk(t, cur, names).None?
    ensures k < |names| && Walk(t, cur, names[..k]).Some?
    ensures ChildIndex(At(t, Walk(t, cur, names[..k]).value), names[k]).None?
    decreases names
  {
    assert names[..0] == [];
    match ChildIndex(At(t, cur), names[0])
    case None =>
      k := 0;
    case Some(i) =>
      WalkCons(t, cur, names, i);
      var k' := WalkFailure(t, cur + [i], names[1..]);
      k := k' + 1;
      assert names[..k][0] == names[0] && names[..k][1..] == names[1..][..k'];
      WalkCons(t, cur, names[..k], i);
      assert names[k] == names[1..][k'];
  }

  /** The walk gets through the names before position `k` but finds no child named `names[k]`. */
  predicate MissingAt(t: Node, cur: Loc, names: seq<string>, k: nat)
    requires ValidLoc(t, cur)
  {
    && k < |names|
    && match Walk(t, cur, names[..k])
       case None => false
       case Some(p) => ChildIndex(At(t, p), names[k]).None?
  }

  /** A walk fails exactly when some name along it is missing. */
  lemma WalkNoneIff(t: Node, cur: Loc, names: seq<string>)
    requires ValidLoc(t, cur)
    ensures Walk(t, cur, names).None? <==> exists k: nat :: MissingAt(t, cur, names, k)
  {
    if Walk(t, cur, names).None? {
      var k := WalkFailure(t, cur, names);
      assert MissingAt(t, cur, names, k);
    } else if exists k: nat :: MissingAt(t, cur, names, k) {
      var k: nat :| MissingAt(t, cur, names, k);
      WalkFailsAt(t, cur, names, k, Walk(t, cur, names[..k]).value);
    }
  }

  // ---------------------------------------------------------------- walks across updates

  /** The entries of the children, in order: all `getChild` looks at. */
  function KidEntries(n: Node): (es: seq<FileEntry>)
    ensures |es| == |Kids(n)|
    ensures forall i :: 0 <= i < |es| ==> es[i] == Kids(n)[i].entry
  {
    seq(|Kids(n)|, i requires 0 <= i < |Kids(n)| => Kids(n)[i].entry)
  }

  /** `addChild` on a directory adds the new child's entry at the end of the listing. */
  lemma AddChildEntries(n: Node, c: Node)
    requires IsDirectory(n.entry) && n.children.List?
    ensures KidEntries(AddChild(n, c)) == KidEntries(n) + [c.entry]
  {
    assert Kids(AddChild(n, c)) == Kids(n) + [c];
  }

  /** The stored names of a node's children, in list order. */
  function KidNames(n: Node): (ns: seq<string>)
    ensures |ns| == |Kids(n)|
    ensures forall i :: 0 <= i < |ns| ==> ns[i] == Kids(n)[i].entry.name
  {
    seq(|Kids(n)|, i requires 0 <= i < |Kids(n)| => Kids(n)[i].entry.name)
  }

  /** `getChild` looks at names only: nodes whose children carry the same names answer it alike. */
  lemma ChildIndexNames(n: Node, m: Node, name: string)
    requires KidNames(n) == KidNames(m)
    ensures ChildIndex(n, name) == ChildIndex(m, name)
  {
    var a, b := ChildIndex(n, name), ChildIndex(m, name);
    assert forall j :: 0 <= j < |Kids(n)| ==> Kids(n)[j].entry.name == Kids(m)[j].entry.name by {
      forall j | 0 <= j < |Kids(n)| ensures Kids(n)[j].entry.name == Kids(m)[j].entry.name {
        assert KidNames(n)[j] == KidNames(m)[j];
      }
    }
  }

  /** Replacing a child by one with the same name keeps the parent's child names. */
  lemma WithKidNames(n: Node, i: nat, x: Node)
    requires i < |Kids(n)| && x.entry.name == Kids(n)[i].entry.name
    ensures KidNames(WithKid(n, i, x)) == KidNames(n)
  {
    var y := WithKid(n, i, x);
    assert forall j :: 0 <= j < |Kids(n)| ==> KidNames(y)[j] == KidNames(n)[j];
  }

  /** Replacing a node by one with the same name leaves every ancestor's children with the
      same names. */
  lemma {:induction false} ReplaceAtAncestors(t: Node, l: Loc, x: Node, q: Loc)
    requires ValidLoc(t, l) && x.entry.name == At(t, l).entry.name
    requires |q| < |l| && q == l[..|q|]
    ensures ValidLoc(t, q) && ValidLoc(ReplaceAt(t, l, x), q)
    ensures KidNames(At(ReplaceAt(t, l, x), q)) == KidNames(At(t, q))
    decreases |l|
  {
    ValidLocPrefix(t, l, |q|);
    var p := Up(l);
    var y := WithKid(At(t, p), Last(l), x);
    ReplaceAtAt(t, p, y);
    WithKidNames(At(t, p), Last(l), x);
    if |q| == |p| {
      assert q == p;
    } else {
      assert q == p[..|q|];
      ReplaceAtAncestors(t, p, y, q);
    }
  }

  /** A walk that ends at `l` ends there too once the node at `l` is replaced by one with the
      same name: every step it takes is below an ancestor of `l`. */
  lemma {:induction false} WalkReplaceAt(t: Node, l: Loc, x: Node, cur: Loc, names: seq<string>)
    requires ValidLoc(t, l) && x.entry.name == At(t, l).entry.name
    requires ValidLoc(t, cur) && Walk(t, cur, names) == Some(l)
    ensures ValidLoc(ReplaceAt(t, l, x), cur) && Walk(ReplaceAt(t, l, x), cur, names) == Some(l)
    decreases names
  {
    var t' := ReplaceAt(t, l, x);
    ReplaceAtAt(t, l, x);
    if names == [] {
      assert l == cur;
    } else {
      var i := WalkFirst(t, cur, names);
      WalkShape(t, cur, names);
      ReplaceAtAncestors(t, l, x, cur);
      ChildIndexNames(At(t', cur), At(t, cur), names[0]);
      WalkCons(t', cur, names, i);
      assert l[..|cur| + 1] == cur + [i] by {
        WalkShape(t, cur + [i], names[1..]);
      }
      WalkReplaceAt(t, l, x, cur + [i], names[1..]);
    }
  }

  /** A child appended under a name no earlier child carries is the one `getChild` finds. */
  lemma AppendedIndex(n: Node, c: Node, name: string)
    requires IsDirectory(n.entry) && n.children.List?
    requires ChildIndex(n, name).None? && Named(c, name)
    ensures ChildIndex(AddChild(n, c), name) == Some(|Kids(n)|)
  {
    var x := AddChild(n, c);
    assert Kids(x) == Kids(n) + [c];
    assert forall j :: 0 <= j < |Kids(n)| ==> Kids(x)[j] == Kids(n)[j];
  }

  /** One more name at the end of a walk is one more `getChild` step. */
  lemma WalkSnoc(t: Node, names: seq<string>, p: Loc, name: string, i: nat)
    requires Walk(t, [], names) == Some(p) && ChildIndex(At(t, p), name) == Some(i)
    ensures ValidLoc(t, p + [i]) && Walk(t, [], names + [name]) == Some(p + [i])
  {
    AtSnoc(t, p, i);
    WalkAppend(t, [], names, [name]);
    WalkCons(t, p, [name], i);
    assert [name][1..] == [];
    assert Walk(t, p, [name]) == Some(p + [i]);
  }

  /** After appending `c` below the directory a walk reaches, the walk continues one step
      further to it by `c`'s name, provided no earlier child carries that name. */
  lemma WalkToAppended(t: Node, p: Loc, c: Node, names: seq<string>, name: string)
    requires Walk(t, [], names) == Some(p)
    requires IsDirectory(At(t, p).entry) && At(t, p).children.List?
    requires ChildIndex(At(t, p), name).None? && Named(c, name)
    ensures var t' := AppendAt(t, p, c);
            && Walk(t', [], names + [name]) == Some(p + [|Kids(At(t, p))|])
            && ValidLoc(t', p + [|Kids(At(t, p))|]) && At(t', p + [|Kids(At(t, p))|]) == c
  {
    var parent := At(t, p);
    var x := AddChild(parent, c);
    var t' := AppendAt(t, p, c);
    var n := |Kids(parent)|;
    AppendedIndex(parent, c, name);
    WalkReplaceAt(t, p, x, [], names);
    WalkSnoc(t', names, p, name, n);
  }

  /** A walk from the root that ends at a non-root node got there through `getChild` of its
      stored name, so looking that name up again in the parent finds the very same child. */
  lemma FoundByOwnName(t: Node, names: seq<string>, l: Loc)
    requires Walk(t, [], names) == Some(l) && |l| > 0
    ensures ValidLoc(t, Up(l)) && ChildIndex(At(t, Up(l)), CStr(At(t, l).entry.name)) == Some(Last(l))
  {
    WalkLast(t, [], names, l);
  }

  /** On the way down to a valid location, each step is a valid child position. */
  lemma StepBelow(t: Node, q: Loc, l: Loc)
    requires ValidLoc(t, l) && |q| < |l| && l[..|q|] == q
    ensures ValidLoc(t, q) && l[|q|] < |Kids(At(t, q))|
  {
    ValidLocPrefix(t, l, |q| + 1);
    var m := l[..|q| + 1];
    assert Up(m) == q && Last(m) == l[|q|];
  }

  /** Below a replaced node, a subtree the replacement still holds (at position `k` instead of
      `l[|q|]`) is reached along the correspondingly adjusted location. */
  lemma {:induction false} BelowReplaced(t: Node, q: Loc, x: Node, l: Loc, k: nat)
    requires ValidLoc(t, q) && ValidLoc(t, l) && |q| < |l| && l[..|q|] == q && l[|q|] < |Kids(At(t, q))|
    requires k < |Kids(x)| && Kids(x)[k] == Kids(At(t, q))[l[|q|]]
    ensures ValidLoc(ReplaceAt(t, q, x), q + [k] + l[|q| + 1..])
    ensures At(ReplaceAt(t, q, x), q + [k] + l[|q| + 1..]) == At(t, l)
    decreases |l|
  {
    if |l| == |q| + 1 {
      assert q + [k] + l[|q| + 1..] == q + [k];
      ReplacedChild(t, q, x, l, k);
    } else {
      var u := Up(l);
      var u' := q + [k] + u[|q| + 1..];
      assert ValidLoc(ReplaceAt(t, q, x), u') && At(ReplaceAt(t, q, x), u') == At(t, u) by {
        assert ValidLoc(t, u);
        assert u[..|q|] == q && u[|q|] == l[|q|];
        BelowReplaced(t, q, x, u, k);
      }
      assert q + [k] + l[|q| + 1..] == u' + [Last(l)] by {
        TailSnoc(l, |q| + 1);
      }
      SameNodeStep(t, ReplaceAt(t, q, x), u', l);
    }
  }

  /** A suffix of a location is the suffix of its parent location and the last step. */
  lemma TailSnoc(l: Loc, j: nat)
    requires j < |l|
    ensures l[j..] == Up(l)[j..] + [Last(l)]
  {
  }

  lemma ReplacedChild(t: Node, q: Loc, x: Node, l: Loc, k: nat)
    requires ValidLoc(t, l) && |l| == |q| + 1 && l[..|q|] == q
    requires ValidLoc(t, q) && l[|q|] < |Kids(At(t, q))|
    requires k < |Kids(x)| && Kids(x)[k] == Kids(At(t, q))[l[|q|]]
    ensures ValidLoc(ReplaceAt(t, q, x), q + [k]) && At(ReplaceAt(t, q, x), q + [k]) == At(t, l)
  {
    ReplaceAtAt(t, q, x);
    AtSnoc(ReplaceAt(t, q, x), q, k);
    assert Up(l) == q;
  }

  lemma SameNodeStep(t: Node, t': Node, u': Loc, l: Loc)
    requires ValidLoc(t, l) && |l| > 0 && ValidLoc(t', u') && At(t', u') == At(t, Up(l))
    ensures ValidLoc(t', u' + [Last(l)]) && At(t', u' + [Last(l)]) == At(t, l)
  {
    AtSnoc(t', u', Last(l));
  }

  /** Replacing a node leaves every node off its path and outside its subtree where it was. */
  lemma {:induction false} DisjointReplaced(t: Node, q: Loc, x: Node, l: Loc)
    requires ValidLoc(t, q) && ValidLoc(t, l) && !(l <= q) && !(q <= l)
    ensures ValidLoc(ReplaceAt(t, q, x), l) && At(ReplaceAt(t, q, x), l) == At(t, l)
    decreases |q|
  {
    var u := Up(q);
    var y := WithKid(At(t, u), Last(q), x);
    assert q == u + [Last(q)];
    if u <= l {
      assert |u| < |l| && l[..|u|] == u;
      var j := l[|u|];
      assert j != Last(q);
      assert j < |Kids(At(t, u))| by { StepBelow(t, u, l); }
      assert u + [j] + l[|u| + 1..] == l;
      BelowReplaced(t, u, y, l, j);
    } else {
      DisjointReplaced(t, u, y, l);
    }
  }

  /** Appending a child somewhere keeps every location valid, and every node that is not on
      the way down to the new child unchanged. */
  lemma AppendAtKeeps(t: Node, q: Loc, c: Node, l: Loc)
    requires ValidLoc(t, q) && ValidLoc(t, l)
    ensures ValidLoc(AppendAt(t, q, c), l)
    ensures !(l <= q) ==> At(AppendAt(t, q, c), l) == At(t, l)
  {
    var x := AddChild(At(t, q), c);
    assert AppendAt(t, q, c) == ReplaceAt(t, q, x);
    if l <= q {
      if l == q {
        ReplaceAtAt(t, q, x);
      } else {
        ReplaceAtAncestors(t, q, x, l);
      }
    } else if q <= l {
      AppendBelow(t, q, c, l);
    } else {
      DisjointReplaced(t, q, x, l);
    }
  }

  lemma AppendBelow(t: Node, q: Loc, c: Node, l: Loc)
    requires ValidLoc(t, q) && ValidLoc(t, l) && q <= l && q != l
    ensures ValidLoc(ReplaceAt(t, q, AddChild(At(t, q), c)), l)
    ensures At(ReplaceAt(t, q, AddChild(At(t, q), c)), l) == At(t, l)
  {
    var x := AddChild(At(t, q), c);
    assert |q| < |l| && l[..|q|] == q;
    var j := l[|q|];
    assert j < |Kids(At(t, q))| by { StepBelow(t, q, l); }
    assert j < |Kids(x)| && Kids(x)[j] == Kids(At(t, q))[j] by { AddChildKeepsKids(At(t, q), c); }
    assert q + [j] + l[|q| + 1..] == l;
    BelowReplaced(t, q, x, l, j);
  }

  /** `addChild` only ever adds at the end. */
  lemma AddChildKeepsKids(n: Node, c: Node)
    ensures |Kids(AddChild(n, c))| >= |Kids(n)|
    ensures forall j :: 0 <= j < |Kids(n)| ==> Kids(AddChild(n, c))[j] == Kids(n)[j]
  {
  }

  /** Appending below a directory adds the new subtree's nodes to the tree. */
  lemma AppendAtSize(t: Node, q: Loc, c: Node)
    requires ValidLoc(t, q) && IsDirectory(At(t, q).entry) && At(t, q).children.List?
    ensures Size(AppendAt(t, q, c)) == Size(t) + Size(c)
  {
    var n := At(t, q);
    ReplaceAtSize(t, q, AddChild(n, c));
    SizeAllAppend(Kids(n), [c]);
    assert [c][1..] == [];
  }

  /** Putting back the node already there changes nothing. */
  lemma {:induction false} ReplaceAtSame(t: Node, l: Loc)
    requires ValidLoc(t, l)
    ensures ReplaceAt(t, l, At(t, l)) == t
    decreases |l|
  {
    if |l| > 0 {
      var p := At(t, Up(l));
      assert Kids(p)[Last(l) := At(t, l)] == Kids(p);
      assert WithKid(p, Last(l), At(t, l)) == p;
      ReplaceAtSame(t, Up(l));
    }
  }

  /** The answer of an operation that may change the tree: a result code and the tree after. */
  datatype Outcome = Outcome(code: int, tree: Node)
}
