/** The node census of `metadata::count_nodes`: how many FILE and how many DIRECTORY nodes a
    subtree holds, and how the census moves when the tree is edited. */
module NodeCount {
  import opened Base
  import opened OdfTypes
  import opened FsNode

  /** The two counts `count_nodes` keeps. */
  datatype Census = Census(files: nat, dirs: nat)

  function Plus(a: Census, b: Census): Census
  {
    Census(a.files + b.files, a.dirs + b.dirs)
  }

  /** What a node adds by itself: one file, one directory, or nothing for any other type byte. */
  function Own(e: FileEntry): Census
  {
    Census(if IsFile(e) then 1 else 0, if IsDirectory(e) then 1 else 0)
  }

  /** `count_nodes`: the FILE and the DIRECTORY nodes of a subtree, the node itself included.
      A node whose type byte is neither adds to neither count, but its children are visited. */
  function Count(n: Node): Census
  {
    match n.children
    case NoList => Own(n.entry)
    case List(cs) => Plus(Own(n.entry), CountAll(cs))
  }

  function CountAll(cs: seq<Node>): Census
  {
    if cs == [] then Census(0, 0) else Plus(Count(cs[0]), CountAll(cs[1..]))
  }

  /** A node's census is its own contribution plus its children's: a directory counts itself
      among the directories, a file among the files. */
  lemma {:induction false} CountKids(n: Node)
    ensures Count(n) == Plus(Own(n.entry), CountAll(Kids(n)))
    ensures IsFile(n.entry) ==> Count(n).files >= 1
    ensures IsDirectory(n.entry) ==> Count(n).dirs >= 1
  {
  }

  /** Every node of the subtree carries one of the two type bytes. */
  predicate Typed(n: Node)
  {
    && (IsFile(n.entry) || IsDirectory(n.entry))
    && match n.children
       case NoList => true
       case List(cs) => TypedAll(cs)
  }

  predicate TypedAll(cs: seq<Node>)
  {
    forall i :: 0 <= i < |cs| ==> Typed(cs[i])
  }

  /** The two counts together never exceed the number of nodes. */
  lemma {:induction false} CountAtMostSize(n: Node)
    ensures Count(n).files + Count(n).dirs <= Size(n)
  {
    match n.children
    case NoList =>
    case List(cs) => CountAllAtMostSize(cs);
  }

  lemma {:induction false} CountAllAtMostSize(cs: seq<Node>)
    ensures CountAll(cs).files + CountAll(cs).dirs <= SizeAll(cs)
  {
    if cs != [] {
      CountAtMostSize(cs[0]);
      CountAllAtMostSize(cs[1..]);
    }
  }

  /** When every type byte is FILE or DIRECTORY, the two counts together number every node. */
  lemma {:induction false} CountIsSize(n: Node)
    requires Typed(n)
    ensures Count(n).files + Count(n).dirs == Size(n)
  {
    match n.children
    case NoList =>
    case List(cs) => CountAllIsSize(cs);
  }

  lemma {:induction false} CountAllIsSize(cs: seq<Node>)
    requires TypedAll(cs)
    ensures CountAll(cs).files + CountAll(cs).dirs == SizeAll(cs)
  {
    if cs != [] {
      CountIsSize(cs[0]);
      CountAllIsSize(cs[1..]);
    }
  }

  lemma {:induction false} CountAllAppend(a: seq<Node>, b: seq<Node>)
    ensures CountAll(a + b) == Plus(CountAll(a), CountAll(b))
    decreases |a|
  {
    if a == [] {
      assert a + b == b;
    } else {
      assert (a + b)[0] == a[0];
      assert (a + b)[1..] == a[1..] + b;
      assert CountAll(a + b) == Plus(Count(a[0]), CountAll(a[1..] + b));
      CountAllAppend(a[1..], b);
    }
  }

  lemma {:induction false} CountAllOne(c: Node)
    ensures CountAll([c]) == Count(c)
  {
    assert [c][1..] == [];
  }

  /** Replacing one element of a list of children changes the census by the difference. */
  lemma {:induction false} CountAllUpdate(cs: seq<Node>, i: nat, x: Node)
    requires i < |cs|
    ensures Plus(CountAll(cs[i := x]), Count(cs[i])) == Plus(CountAll(cs), Count(x))
  {
    assert cs == cs[..i] + [cs[i]] + cs[i + 1..];
    assert cs[i := x] == cs[..i] + [x] + cs[i + 1..];
    CountAllAppend(cs[..i] + [cs[i]], cs[i + 1..]);
    CountAllAppend(cs[..i], [cs[i]]);
    CountAllAppend(cs[..i] + [x], cs[i + 1..]);
    CountAllAppend(cs[..i], [x]);
    CountAllOne(cs[i]);
    CountAllOne(x);
  }

  /** Replacing a child changes a node's census by the difference of the two subtrees'. */
  lemma {:induction false} WithKidCount(n: Node, i: nat, x: Node)
    requires i < |Kids(n)|
    ensures Plus(Count(WithKid(n, i, x)), Count(Kids(n)[i])) == Plus(Count(n), Count(x))
  {
    CountKids(n);
    CountKids(WithKid(n, i, x));
    CountAllUpdate(Kids(n), i, x);
  }

  /** Replacing a node changes the tree's census by the difference of the two subtrees'. */
  lemma {:induction false} ReplaceAtCount(t: Node, l: Loc, x: Node)
    requires ValidLoc(t, l)
    ensures Plus(Count(ReplaceAt(t, l, x)), Count(At(t, l))) == Plus(Count(t), Count(x))
    decreases |l|
  {
    if |l| > 0 {
      var y := WithKid(At(t, Up(l)), Last(l), x);
      ReplaceAtCount(t, Up(l), y);
      WithKidCount(At(t, Up(l)), Last(l), x);
    }
  }

  /** Linking a node below a directory adds exactly its subtree to the census. */
  lemma {:induction false} AppendAtCount(t: Node, q: Loc, c: Node)
    requires ValidLoc(t, q) && IsDirectory(At(t, q).entry) && At(t, q).children.List?
    ensures Count(AppendAt(t, q, c)) == Plus(Count(t), Count(c))
  {
    var n := At(t, q);
    ReplaceAtCount(t, q, AddChild(n, c));
    CountAllAppend(Kids(n), [c]);
    CountAllOne(c);
  }

  /** Unlinking a node takes exactly its subtree out of the census. */
  lemma {:induction false} RemoveAtCount(t: Node, l: Loc)
    requires ValidLoc(t, l) && |l| > 0
    ensures Plus(Count(RemoveAt(t, l)), Count(At(t, l))) == Count(t)
  {
    var n := At(t, Up(l));
    var i := Last(l);
    var cs := Kids(n);
    ReplaceAtCount(t, Up(l), Without(n, i));
    assert cs == cs[..i] + [cs[i]] + cs[i + 1..];
    CountAllAppend(cs[..i] + [cs[i]], cs[i + 1..]);
    CountAllAppend(cs[..i], [cs[i]]);
    CountAllAppend(cs[..i], cs[i + 1..]);
    CountAllOne(cs[i]);
  }
}
