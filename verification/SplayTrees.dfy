/** The shapes the splay code of src/splay.c moves between, as values.

    A `Tree` is labelled with the node objects that carry it, so that the heap
    code of module SplayHeap can be specified by the functions below.  A `Path`
    is the way from a subtree up to the root: what the code walks over its
    uplinks.  The functions follow the branches of the C code one for one; the
    lemmas say what they preserve.  */
module SplayTrees {

  /** spkey_t is uint32_t. */
  type Key = k: int | 0 <= k < 0x1_0000_0000

  /** struct spblk.  Its free-list chain reuses `up`. */
  class Node {
    var left: Node?
    var right: Node?
    var up: Node?
    var key: Key
    var data: object?

    constructor ()
    {
      left, right, up, data := null, null, null, null;
    }
  }

  datatype Elem = Elem(node: Node, key: Key)

  datatype Tree = Leaf | Bin(left: Tree, elem: Elem, right: Tree)

  /** `Lefter(e, sib, up)`: the hole is the left child of `e`, whose right subtree is `sib`. */
  datatype Path = Top | Lefter(elem: Elem, sib: Tree, up: Path) | Righter(elem: Elem, sib: Tree, up: Path)

  function Size(t: Tree): nat {
    match t
    case Leaf => 0
    case Bin(l, _, r) => Size(l) + 1 + Size(r)
  }

  function InOrder(t: Tree): seq<Elem> {
    match t
    case Leaf => []
    case Bin(l, e, r) => InOrder(l) + [e] + InOrder(r)
  }

  function Nodes(t: Tree): set<Node> {
    match t
    case Leaf => {}
    case Bin(l, e, r) => Nodes(l) + {e.node} + Nodes(r)
  }

  function PathNodes(p: Path): set<Node> {
    match p
    case Top => {}
    case Lefter(e, sib, up) => {e.node} + Nodes(sib) + PathNodes(up)
    case Righter(e, sib, up) => {e.node} + Nodes(sib) + PathNodes(up)
  }

  /** No node occurs twice. */
  ghost predicate Distinct(t: Tree) {
    t.Bin? ==>
      && t.elem.node !in Nodes(t.left) && t.elem.node !in Nodes(t.right)
      && Nodes(t.left) !! Nodes(t.right)
      && Distinct(t.left) && Distinct(t.right)
  }

  ghost predicate DistinctPath(p: Path) {
    !p.Top? ==>
      && p.elem.node !in Nodes(p.sib) && p.elem.node !in PathNodes(p.up)
      && Nodes(p.sib) !! PathNodes(p.up)
      && Distinct(p.sib) && DistinctPath(p.up)
  }

  /** Strictly ascending keys: the search-tree order. */
  ghost predicate Ascending(s: seq<Elem>) {
    forall i, j :: 0 <= i < j < |s| ==> s[i].key < s[j].key
  }

  /** The order a tree with repeated keys keeps. */
  ghost predicate Sorted(s: seq<Elem>) {
    forall i, j :: 0 <= i < j < |s| ==> s[i].key <= s[j].key
  }

  ghost predicate Ordered(t: Tree) {
    Ascending(InOrder(t))
  }

  /** Plug a subtree into the hole at the end of a path. */
  function Zip(t: Tree, p: Path): Tree
    decreases p
  {
    match p
    case Top => t
    case Lefter(e, sib, up) => Zip(Bin(t, e, sib), up)
    case Righter(e, sib, up) => Zip(Bin(sib, e, t), up)
  }

  function Before(p: Path): seq<Elem> {
    match p
    case Top => []
    case Lefter(e, sib, up) => Before(up)
    case Righter(e, sib, up) => Before(up) + InOrder(sib) + [e]
  }

  function After(p: Path): seq<Elem> {
    match p
    case Top => []
    case Lefter(e, sib, up) => [e] + InOrder(sib) + After(up)
    case Righter(e, sib, up) => After(up)
  }

  lemma {:induction false} ZipInOrder(t: Tree, p: Path)
    ensures InOrder(Zip(t, p)) == Before(p) + InOrder(t) + After(p)
    decreases p
  {
    match p
    case Top =>
    case Lefter(e, sib, up) => ZipInOrder(Bin(t, e, sib), up);
    case Righter(e, sib, up) => ZipInOrder(Bin(sib, e, t), up);
  }

  lemma {:induction false} ZipNodes(t: Tree, p: Path)
    ensures Nodes(Zip(t, p)) == Nodes(t) + PathNodes(p)
    ensures Distinct(Zip(t, p)) <==> Distinct(t) && DistinctPath(p) && Nodes(t) !! PathNodes(p)
    decreases p
  {
    match p
    case Top =>
    case Lefter(e, sib, up) => ZipNodes(Bin(t, e, sib), up);
    case Righter(e, sib, up) => ZipNodes(Bin(sib, e, t), up);
  }

  lemma {:induction false} InOrderLength(t: Tree)
    ensures |InOrder(t)| == Size(t)
  {
    if t.Bin? { InOrderLength(t.left); InOrderLength(t.right); }
  }

  lemma {:induction false} NodeAt(t: Tree, x: Node) returns (i: nat)
    requires x in Nodes(t)
    ensures i < |InOrder(t)| && InOrder(t)[i].node == x
  {
    if x in Nodes(t.left) {
      i := NodeAt(t.left, x);
    } else if x == t.elem.node {
      i := |InOrder(t.left)|;
    } else {
      i := NodeAt(t.right, x);
      i := |InOrder(t.left)| + 1 + i;
    }
  }

  lemma {:induction false} InOrderAt(t: Tree, i: nat)
    requires i < |InOrder(t)|
    ensures InOrder(t)[i].node in Nodes(t)
  {
    var m := |InOrder(t.left)|;
    if i < m {
      InOrderAt(t.left, i);
    } else if i > m {
      InOrderAt(t.right, i - m - 1);
    }
  }

  /** Where a node of a tree stands: its own subtree and the path above it. */
  ghost function PathTo(t: Tree, n: Node, acc: Path): Path
    requires n in Nodes(t)
  {
    if t.elem.node == n then acc
    else if n in Nodes(t.left) then PathTo(t.left, n, Lefter(t.elem, t.right, acc))
    else PathTo(t.right, n, Righter(t.elem, t.left, acc))
  }

  ghost function SubtreeAt(t: Tree, n: Node): (s: Tree)
    requires n in Nodes(t)
    ensures s.Bin? && s.elem.node == n
  {
    if t.elem.node == n then t
    else if n in Nodes(t.left) then SubtreeAt(t.left, n)
    else SubtreeAt(t.right, n)
  }

  lemma {:induction false} PathToZip(t: Tree, n: Node, acc: Path)
    requires n in Nodes(t)
    ensures Zip(SubtreeAt(t, n), PathTo(t, n, acc)) == Zip(t, acc)
  {
    if t.elem.node == n {
    } else if n in Nodes(t.left) {
      PathToZip(t.left, n, Lefter(t.elem, t.right, acc));
    } else {
      PathToZip(t.right, n, Righter(t.elem, t.left, acc));
    }
  }

  // ----- searching -----

  /** Where the search loop of sp_lookup ends, and the path it took. */
  function Seek(t: Tree, key: Key, acc: Path): (Tree, Path) {
    if t.Leaf? || t.elem.key == key then (t, acc)
    else if key < t.elem.key then Seek(t.left, key, Lefter(t.elem, t.right, acc))
    else Seek(t.right, key, Righter(t.elem, t.left, acc))
  }

  /** Nodes passed by the search before it stops. */
  function SeekSteps(t: Tree, key: Key): nat {
    if t.Leaf? || t.elem.key == key then 0
    else 1 + SeekSteps(if key < t.elem.key then t.left else t.right, key)
  }

  ghost predicate HasKey(s: seq<Elem>, key: Key) {
    exists i :: 0 <= i < |s| && s[i].key == key
  }

  lemma {:induction false} SeekZip(t: Tree, key: Key, acc: Path)
    ensures var (s, p) := Seek(t, key, acc); Zip(s, p) == Zip(t, acc) && (s.Bin? ==> s.elem.key == key)
  {
    if t.Leaf? || t.elem.key == key {
    } else if key < t.elem.key {
      SeekZip(t.left, key, Lefter(t.elem, t.right, acc));
    } else {
      SeekZip(t.right, key, Righter(t.elem, t.left, acc));
    }
  }

  lemma OrderedParts(t: Tree)
    requires t.Bin? && Ordered(t)
    ensures Ordered(t.left) && Ordered(t.right)
    ensures forall x :: x in InOrder(t.left) ==> x.key < t.elem.key
    ensures forall x :: x in InOrder(t.right) ==> t.elem.key < x.key
  {
    var s, m := InOrder(t), |InOrder(t.left)|;
    assert s[m] == t.elem;
    assert InOrder(t.left) == s[..m];
    assert InOrder(t.right) == s[m + 1..];
  }

  lemma HasKeyParts(a: seq<Elem>, e: Elem, b: seq<Elem>, key: Key)
    ensures HasKey(a + [e] + b, key) <==> HasKey(a, key) || e.key == key || HasKey(b, key)
  {
    var s := a + [e] + b;
    assert s[|a|] == e;
    if HasKey(a, key) {
      var i :| 0 <= i < |a| && a[i].key == key;
      assert s[i].key == key;
    }
    if HasKey(b, key) {
      var i :| 0 <= i < |b| && b[i].key == key;
      assert s[|a| + 1 + i].key == key;
    }
  }

  /** The search finds a node exactly when the key is present. */
  lemma {:induction false} SeekFinds(t: Tree, key: Key, acc: Path)
    requires Ordered(t)
    ensures Seek(t, key, acc).0.Bin? <==> HasKey(InOrder(t), key)
  {
    if t.Bin? {
      OrderedParts(t);
      HasKeyParts(InOrder(t.left), t.elem, InOrder(t.right), key);
      if key < t.elem.key {
        SeekFinds(t.left, key, Lefter(t.elem, t.right, acc));
      } else if key > t.elem.key {
        SeekFinds(t.right, key, Righter(t.elem, t.left, acc));
      }
    }
  }

  // ----- bottom-up splay: _splay -----

  function Depth(p: Path): nat {
    if p.Top? then 0 else 1 + Depth(p.up)
  }

  /** One iteration of _splay's loop, on the left and right trees built so far
      and the path still to climb.  Two nodes that bend the same way are
      disposed of at once, with a rotation; else one node is. */
  function SplayStep(l: Tree, r: Tree, p: Path): (next: (Tree, Tree, Path))
    requires !p.Top?
    ensures Depth(next.2) < Depth(p)
  {
    match p
    case Lefter(u, ur, up) =>
      if up.Lefter? then (l, Bin(r, u, Bin(ur, up.elem, up.sib)), up.up)
      else (l, Bin(r, u, ur), up)
    case Righter(u, ul, up) =>
      if up.Righter? then (Bin(Bin(up.sib, up.elem, ul), u, l), r, up.up)
      else (Bin(ul, u, l), r, up)
  }

  /** The trees _splay leaves to the left and right of n. */
  function SplayUp(l: Tree, r: Tree, p: Path): (Tree, Tree)
    decreases Depth(p)
  {
    if p.Top? then (l, r)
    else var (l', r', p') := SplayStep(l, r, p); SplayUp(l', r', p')
  }

  /** Iterations of that loop: what _splay adds to `splayloops`. */
  function SplayLoops(p: Path): nat
    decreases Depth(p)
  {
    if p.Top? then 0 else 1 + SplayLoops(SplayStep(Leaf, Leaf, p).2)
  }

  /** The tree after splaying the root of `s`, which stood below `p`. */
  function Splayed(s: Tree, p: Path): Tree
    requires s.Bin?
  {
    var (l, r) := SplayUp(s.left, s.right, p);
    Bin(l, s.elem, r)
  }

  lemma Regroup<T>(a: seq<T>, u: T, b: seq<T>, v: T, c: seq<T>, d: seq<T>)
    ensures a + [u] + (b + [v] + c) + d == a + ([u] + b + ([v] + c + d))
    ensures d + (a + [u] + b + [v] + c) == d + a + [u] + b + [v] + c
    ensures a + [u] + (b + [v] + c) == a + [u] + b + [v] + c
  {
  }

  lemma Regroup1<T>(a: seq<T>, u: T, b: seq<T>, d: seq<T>)
    ensures a + [u] + b + d == a + ([u] + b + d)
    ensures d + (a + [u] + b) == d + a + [u] + b
  {
  }

  lemma SplayStepInOrder(l: Tree, r: Tree, p: Path)
    requires !p.Top?
    ensures var (l', r', p') := SplayStep(l, r, p);
            && Before(p') + InOrder(l') == Before(p) + InOrder(l)
            && InOrder(r') + After(p') == InOrder(r) + After(p)
  {
    match p
    case Lefter(u, ur, up) =>
      if up.Lefter? {
        Regroup(InOrder(r), u, InOrder(ur), up.elem, InOrder(up.sib), After(up.up));
      } else {
        Regroup1(InOrder(r), u, InOrder(ur), After(up));
      }
    case Righter(u, ul, up) =>
      if up.Righter? {
        Regroup(InOrder(up.sib), up.elem, InOrder(ul), u, InOrder(l), Before(up.up));
      } else {
        Regroup1(InOrder(ul), u, InOrder(l), Before(up));
      }
  }

  lemma {:induction false} SplayUpInOrder(l: Tree, r: Tree, p: Path)
    ensures InOrder(SplayUp(l, r, p).0) == Before(p) + InOrder(l)
    ensures InOrder(SplayUp(l, r, p).1) == InOrder(r) + After(p)
    decreases Depth(p)
  {
    if !p.Top? {
      var (l', r', p') := SplayStep(l, r, p);
      SplayStepInOrder(l, r, p);
      SplayUpInOrder(l', r', p');
    }
  }

  /** Splaying changes only the shape: the in-order node sequence stays. */
  lemma SplayedInOrder(s: Tree, p: Path)
    requires s.Bin?
    ensures InOrder(Splayed(s, p)) == InOrder(Zip(s, p))
  {
    SplayUpInOrder(s.left, s.right, p);
    ZipInOrder(s, p);
  }

  // ----- top-down split: _sp_enq -----

  /** The trees _sp_enq leaves to the left and to the right of the new node. */
  function Split(t: Tree, key: Key): (Tree, Tree) {
    if t.Leaf? then (Leaf, Leaf)
    else if t.elem.key < key then
      var temp := t.right;
      if temp.Leaf? then (t, Leaf)
      else if !(temp.elem.key < key) then
        var (l, r) := Split(temp, key);
        (Bin(t.left, t.elem, l), r)
      else
        var (l, r) := Split(temp.right, key);
        (Bin(Bin(t.left, t.elem, temp.left), temp.elem, l), r)
    else
      var temp := t.left;
      if temp.Leaf? then (Leaf, t)
      else if temp.elem.key < key then
        var (l, r) := Split(temp, key);
        (l, Bin(r, t.elem, t.right))
      else
        var (l, r) := Split(temp.left, key);
        (l, Bin(r, temp.elem, Bin(temp.right, t.elem, t.right)))
  }

  /** Key comparisons of that split: what it adds to `enqcmps`. */
  function SplitCmps(t: Tree, key: Key): nat {
    if t.Leaf? then 0
    else if t.elem.key < key then
      var temp := t.right;
      if temp.Leaf? then 1
      else if !(temp.elem.key < key) then 1 + SplitCmps(temp, key)
      else 2 + SplitCmps(temp.right, key)
    else
      var temp := t.left;
      if temp.Leaf? then 1
      else if temp.elem.key < key then 1 + SplitCmps(temp, key)
      else 2 + SplitCmps(temp.left, key)
  }

  /** Every key of the tree is below / at least `key`. */
  ghost predicate Below(t: Tree, key: Key) {
    t.Bin? ==> t.elem.key < key && Below(t.left, key) && Below(t.right, key)
  }

  ghost predicate AtLeast(t: Tree, key: Key) {
    t.Bin? ==> key <= t.elem.key && AtLeast(t.left, key) && AtLeast(t.right, key)
  }

  lemma {:induction false} BoundsOfInOrder(t: Tree, key: Key)
    ensures Below(t, key) <==> forall x :: x in InOrder(t) ==> x.key < key
    ensures AtLeast(t, key) <==> forall x :: x in InOrder(t) ==> key <= x.key
  {
    if t.Bin? {
      assert t.elem in InOrder(t);
      assert forall x :: x in InOrder(t) <==> x in InOrder(t.left) || x == t.elem || x in InOrder(t.right);
      BoundsOfInOrder(t.left, key);
      BoundsOfInOrder(t.right, key);
    }
  }

  lemma SortedParts(t: Tree, key: Key)
    requires t.Bin? && Sorted(InOrder(t))
    ensures Sorted(InOrder(t.left)) && Sorted(InOrder(t.right))
    ensures t.elem.key < key ==> Below(t.left, key)
    ensures key <= t.elem.key ==> AtLeast(t.right, key)
  {
    var s, m := InOrder(t), |InOrder(t.left)|;
    assert s[m] == t.elem;
    assert InOrder(t.left) == s[..m];
    assert InOrder(t.right) == s[m + 1..];
    BoundsOfInOrder(t.left, key);
    BoundsOfInOrder(t.right, key);
  }

  /** The split keeps the whole sequence, whatever the keys. */
  lemma {:induction false} SplitInOrder(t: Tree, key: Key)
    ensures InOrder(Split(t, key).0) + InOrder(Split(t, key).1) == InOrder(t)
    decreases t, 1
  {
    if t.Bin? {
      if t.elem.key < key {
        if t.right.Bin? { SplitInOrderLower(t, key); }
      } else if t.left.Bin? {
        SplitInOrderUpper(t, key);
      }
    }
  }

  lemma {:induction false} SplitInOrderLower(t: Tree, key: Key)
    requires t.Bin? && t.elem.key < key && t.right.Bin?
    ensures InOrder(Split(t, key).0) + InOrder(Split(t, key).1) == InOrder(t)
    decreases t, 0
  {
    var temp := t.right;
    if temp.elem.key < key {
      var (l, r) := Split(temp.right, key);
      SplitInOrder(temp.right, key);
      GlueRight(InOrder(t.left), t.elem, InOrder(temp.left), temp.elem, InOrder(l), InOrder(r), InOrder(temp.right));
    } else {
      var (l, r) := Split(temp, key);
      SplitInOrder(temp, key);
      Regroup1(InOrder(t.left), t.elem, InOrder(l), InOrder(r));
      assert [t.elem] + InOrder(l) + InOrder(r) == [t.elem] + InOrder(temp);
    }
  }

  lemma GlueRight<T>(a: seq<T>, u: T, b: seq<T>, v: T, x: seq<T>, y: seq<T>, xy: seq<T>)
    requires x + y == xy
    ensures a + [u] + b + [v] + x + y == a + [u] + (b + [v] + xy)
  {
    assert [v] + x + y == [v] + xy;
    assert a + [u] + b + [v] + x + y == a + [u] + b + ([v] + x + y);
  }

  lemma {:induction false} SplitInOrderUpper(t: Tree, key: Key)
    requires t.Bin? && !(t.elem.key < key) && t.left.Bin?
    ensures InOrder(Split(t, key).0) + InOrder(Split(t, key).1) == InOrder(t)
    decreases t, 0
  {
    var temp := t.left;
    if temp.elem.key < key {
      var (l, r) := Split(temp, key);
      SplitInOrder(temp, key);
      Regroup1(InOrder(r), t.elem, InOrder(t.right), InOrder(l));
    } else {
      var (l, r) := Split(temp.left, key);
      SplitInOrder(temp.left, key);
      Regroup1(InOrder(r), temp.elem, InOrder(Bin(temp.right, t.elem, t.right)), InOrder(l));
      Regroup(InOrder(temp.left), temp.elem, InOrder(temp.right), t.elem, InOrder(t.right), []);
    }
  }

  /** In a search tree the cut is at the key: smaller keys left, the rest
      right.  Repeated keys are allowed, and those equal to `key` all go right. */
  lemma {:induction false} SplitCuts(t: Tree, key: Key)
    requires Sorted(InOrder(t))
    ensures Below(Split(t, key).0, key) && AtLeast(Split(t, key).1, key)
  {
    if t.Bin? {
      SortedParts(t, key);
      if t.elem.key < key {
        if t.right.Bin? {
          SortedParts(t.right, key);
          SplitCuts(if t.right.elem.key < key then t.right.right else t.right, key);
        }
      } else if t.left.Bin? {
        SortedParts(t.left, key);
        SplitCuts(if t.left.elem.key < key then t.left else t.left.left, key);
      }
    }
  }

  // ----- delete-min: _sp_deq -----

  /** The least node of a subtree and what _sp_deq leaves of the rest. */
  function Deq(t: Tree): (Elem, Tree)
    requires t.Bin?
  {
    if t.left.Leaf? then (t.elem, t.right) else DeqLeft(t)
  }

  function DeqLeft(t: Tree): (Elem, Tree)
    requires t.Bin? && t.left.Bin?
    decreases t.left
  {
    var left := t.left;
    if left.left.Leaf? then (left.elem, Bin(left.right, t.elem, t.right))
    else
      var farleft := left.left;
      if farleft.left.Leaf? then
        (farleft.elem, Bin(Bin(farleft.right, left.elem, left.right), t.elem, t.right))
      else
        var (m, rest) := DeqLeft(Bin(farleft.left, farleft.elem, Bin(farleft.right, left.elem, left.right)));
        (m, Bin(rest, t.elem, t.right))
  }

  lemma {:induction false} DeqLeftInOrder(t: Tree)
    requires t.Bin? && t.left.Bin?
    ensures InOrder(t) == [DeqLeft(t).0] + InOrder(DeqLeft(t).1)
    decreases t.left
  {
    var left := t.left;
    if left.left.Leaf? {
      assert InOrder(left) == [left.elem] + InOrder(left.right);
    } else {
      var farleft := left.left;
      Regroup(InOrder(farleft.left), farleft.elem, InOrder(farleft.right), left.elem, InOrder(left.right), []);
      var t' := Bin(farleft.left, farleft.elem, Bin(farleft.right, left.elem, left.right));
      assert InOrder(left) == InOrder(t');
      if farleft.left.Leaf? {
        assert InOrder(t') == [farleft.elem] + InOrder(t'.right);
      } else {
        DeqLeftInOrder(t');
        var (m, rest) := DeqLeft(t');
        assert [m] + InOrder(rest) + [t.elem] + InOrder(t.right) == [m] + (InOrder(rest) + [t.elem] + InOrder(t.right));
      }
    }
  }

  /** _sp_deq takes the first element and keeps all others in order. */
  lemma DeqInOrder(t: Tree)
    requires t.Bin?
    ensures var (m, rest) := Deq(t); InOrder(t) == [m] + InOrder(rest)
  {
    if t.left.Bin? { DeqLeftInOrder(t); }
  }

  /** The tree sp_delete leaves, given the tree splayed at the doomed node. */
  function Deleted(t: Tree): Tree
    requires t.Bin?
  {
    if t.right.Leaf? then t.left
    else var (m, rest) := Deq(t.right); Bin(t.left, m, rest)
  }

  lemma DeletedInOrder(t: Tree)
    requires t.Bin?
    ensures InOrder(Deleted(t)) == InOrder(t.left) + InOrder(t.right)
    ensures t.right.Bin? ==> Deleted(t).Bin? && Deleted(t).elem == InOrder(t.right)[0]
  {
    if t.right.Bin? {
      DeqInOrder(t.right);
      var (m, rest) := Deq(t.right);
      assert InOrder(t.left) + [m] + InOrder(rest) == InOrder(t.left) + ([m] + InOrder(rest));
    }
  }

  // ----- the operations on a tree -----

  /** sp_lookup: splay what the search finds, else leave the tree alone. */
  function LookedUp(t: Tree, key: Key): Tree {
    var (s, p) := Seek(t, key, Top);
    if s.Bin? then Splayed(s, p) else t
  }

  /** sp_install, with `n` the node it allocates when the key is absent. */
  function Installed(t: Tree, key: Key, n: Node): Tree {
    if Seek(t, key, Top).0.Bin? then LookedUp(t, key)
    else var (l, r) := Split(t, key); Bin(l, Elem(n, key), r)
  }

  /** sp_delete of the node that holds `key`. */
  function Removed(t: Tree, key: Key): Tree {
    if LookedUp(t, key).Leaf? then Leaf else Deleted(LookedUp(t, key))
  }

  lemma LookedUpInOrder(t: Tree, key: Key)
    ensures InOrder(LookedUp(t, key)) == InOrder(t)
    ensures Seek(t, key, Top).0.Bin? ==> LookedUp(t, key).Bin? && LookedUp(t, key).elem.key == key
  {
    var (s, p) := Seek(t, key, Top);
    SeekZip(t, key, Top);
    if s.Bin? { SplayedInOrder(s, p); }
  }

  lemma AscendingIsSorted(s: seq<Elem>)
    requires Ascending(s)
    ensures Sorted(s)
  {
  }

  /** `s` cut at `i` has all keys below `key` before the cut and all above it after. */
  ghost predicate CutAt(s: seq<Elem>, i: nat, key: Key) {
    && i <= |s|
    && (forall j :: 0 <= j < i ==> s[j].key < key)
    && (forall j :: i <= j < |s| ==> key < s[j].key)
  }

  lemma CutFromParts(a: seq<Elem>, b: seq<Elem>, key: Key)
    requires !HasKey(a + b, key)
    requires (forall x :: x in a ==> x.key < key) && (forall x :: x in b ==> key <= x.key)
    ensures CutAt(a + b, |a|, key)
  {
    var s := a + b;
    forall j | 0 <= j < |a| ensures s[j].key < key { assert s[j] == a[j]; }
    forall j | |a| <= j < |s| ensures key < s[j].key { assert s[j] == b[j - |a|]; }
  }

  /** The split loses nothing and cuts at the key: the two halves, one after the other, are
      the tree's nodes in order, everything smaller on the left and all the rest on the right. */
  lemma SplitIsCut(t: Tree, key: Key)
    requires Sorted(InOrder(t))
    ensures var (l, r) := Split(t, key);
            && InOrder(l) + InOrder(r) == InOrder(t)
            && (forall i :: 0 <= i < |InOrder(l)| ==> InOrder(l)[i].key < key)
            && (forall i :: 0 <= i < |InOrder(r)| ==> InOrder(r)[i].key >= key)
  {
    SplitInOrder(t, key);
    SplitCuts(t, key);
    BoundsOfInOrder(Split(t, key).0, key);
    BoundsOfInOrder(Split(t, key).1, key);
  }

  /** What the comment on _sp_enq promises: keys up to the new one on the left, greater ones on the right. */
  ghost predicate EqualsGoLeft(t: Tree, key: Key) {
    var (l, r) := Split(t, key);
    && (forall i :: 0 <= i < |InOrder(l)| ==> InOrder(l)[i].key <= key)
    && (forall i :: 0 <= i < |InOrder(r)| ==> InOrder(r)[i].key > key)
  }

  /** The comment is right exactly when the key is not in the tree, as it never is when
      sp_install enqueues; an equal key goes to the right. */
  lemma EqualsGoLeftJustWhenNone(t: Tree, key: Key)
    requires Sorted(InOrder(t))
    ensures EqualsGoLeft(t, key) <==> !HasKey(InOrder(t), key)
  {
    SplitIsCut(t, key);
    CutEquals(InOrder(Split(t, key).0), InOrder(Split(t, key).1), key);
    hide InOrder, Split;
  }

  lemma CutEquals(a: seq<Elem>, b: seq<Elem>, key: Key)
    requires (forall i :: 0 <= i < |a| ==> a[i].key < key) && (forall i :: 0 <= i < |b| ==> b[i].key >= key)
    ensures HasKey(a + b, key) <==> exists i :: 0 <= i < |b| && b[i].key == key
  {
    if i :| 0 <= i < |b| && b[i].key == key {
      assert (a + b)[|a| + i] == b[i];
    }
  }

  lemma EqualKeyGoesRight(n: Node)
    ensures var t := Bin(Leaf, Elem(n, 5), Leaf); Split(t, 5) == (Leaf, t) && !EqualsGoLeft(t, 5)
  {
    var t := Bin(Leaf, Elem(n, 5), Leaf);
    assert InOrder(t) == [Elem(n, 5)] && InOrder(t)[0].key == 5;
  }

  lemma SplitAtAbsent(t: Tree, key: Key)
    requires Ordered(t) && !HasKey(InOrder(t), key)
    ensures var (l, r) := Split(t, key);
            && CutAt(InOrder(t), Size(l), key)
            && InOrder(l) == InOrder(t)[..Size(l)]
            && InOrder(r) == InOrder(t)[Size(l)..]
  {
    var (l, r) := Split(t, key);
    var a, b := InOrder(l), InOrder(r);
    AscendingIsSorted(InOrder(t));
    SplitInOrder(t, key);
    SplitCuts(t, key);
    BoundsOfInOrder(l, key);
    BoundsOfInOrder(r, key);
    InOrderLength(l);
    CutFromParts(a, b, key);
    assert a == (a + b)[..|a|] && b == (a + b)[|a|..];
  }

  lemma InsertAscends(s: seq<Elem>, i: nat, e: Elem)
    requires Ascending(s) && CutAt(s, i, e.key)
    ensures Ascending(s[..i] + [e] + s[i..])
  {
  }

  /** Installing an absent key puts it at its place in the order and changes
      nothing else in the sequence. */
  lemma InstalledInOrder(t: Tree, key: Key, n: Node)
    requires Ordered(t) && !HasKey(InOrder(t), key)
    ensures var i, s := Size(Split(t, key).0), InOrder(t);
            CutAt(s, i, key) && InOrder(Installed(t, key, n)) == s[..i] + [Elem(n, key)] + s[i..]
    ensures Ordered(Installed(t, key, n))
  {
    SeekFinds(t, key, Top);
    SplitAtAbsent(t, key);
    InsertAscends(InOrder(t), Size(Split(t, key).0), Elem(n, key));
  }

  /** Deleting a present key takes out exactly its element, and leaves its
      in-order successor at the root when there is one. */
  lemma RemovedInOrder(t: Tree, key: Key)
    requires Ordered(t) && HasKey(InOrder(t), key)
    ensures var i, s := Size(LookedUp(t, key).left), InOrder(t);
            && i < |s| && s[i].key == key
            && InOrder(Removed(t, key)) == s[..i] + s[i + 1..]
            && (i + 1 < |s| ==> Removed(t, key).Bin? && Removed(t, key).elem == s[i + 1])
    ensures Ordered(Removed(t, key))
  {
    var u := LookedUp(t, key);
    SeekFinds(t, key, Top);
    LookedUpInOrder(t, key);
    DeletedInOrder(u);
    InOrderLength(u.left);
    WithoutMiddle(InOrder(u.left), u.elem, InOrder(u.right));
    InOrderLength(u.right);
  }

  lemma WithoutMiddle(a: seq<Elem>, e: Elem, b: seq<Elem>)
    ensures var s := a + [e] + b; s[|a|] == e && s[..|a|] == a && s[|a| + 1..] == b
    ensures b != [] ==> (a + [e] + b)[|a| + 1] == b[0]
    ensures Ascending(a + [e] + b) ==> Ascending(a + b)
  {
    var s := a + [e] + b;
    assert s[..|a|] == a && s[|a| + 1..] == b;
    if Ascending(s) {
      forall i, j | 0 <= i < j < |a + b| ensures (a + b)[i].key < (a + b)[j].key {
        var i', j' := if i < |a| then i else i + 1, if j < |a| then j else j + 1;
        assert (a + b)[i] == s[i'] && (a + b)[j] == s[j'];
      }
    }
  }

  // ----- distinctness follows from the sequence -----

  ghost predicate NoRepeat(s: seq<Elem>) {
    forall i, j :: 0 <= i < j < |s| ==> s[i].node != s[j].node
  }

  lemma {:induction false} DistinctNoRepeat(t: Tree)
    requires Distinct(t)
    ensures NoRepeat(InOrder(t))
  {
    if t.Bin? {
      DistinctNoRepeat(t.left);
      DistinctNoRepeat(t.right);
      var s, m := InOrder(t), |InOrder(t.left)|;
      forall i, j | 0 <= i < j < |s| ensures s[i].node != s[j].node {
        if i < m { InOrderAt(t.left, i); }
        if j < m { InOrderAt(t.left, j); }
        if i > m { InOrderAt(t.right, i - m - 1); }
        if j > m { InOrderAt(t.right, j - m - 1); }
      }
    }
  }

  lemma {:induction false} NoRepeatDistinct(t: Tree)
    requires NoRepeat(InOrder(t))
    ensures Distinct(t)
  {
    if t.Bin? {
      var s, m := InOrder(t), |InOrder(t.left)|;
      assert s[m] == t.elem;
      assert InOrder(t.left) == s[..m];
      assert InOrder(t.right) == s[m + 1..];
      assert forall j :: 0 <= j < |InOrder(t.right)| ==> InOrder(t.right)[j] == s[m + 1 + j];
      NoRepeatDistinct(t.left);
      NoRepeatDistinct(t.right);
      forall x | x in Nodes(t.left) ensures x != t.elem.node && x !in Nodes(t.right) {
        var i := NodeAt(t.left, x);
        assert s[i].node == x && s[m] == t.elem;
        if x in Nodes(t.right) {
          var j := NodeAt(t.right, x);
          assert false;
        }
      }
      if t.elem.node in Nodes(t.right) {
        var j := NodeAt(t.right, t.elem.node);
        assert false;
      }
    }
  }

  lemma SubsetOfInOrder(t: Tree, u: Tree)
    requires forall x :: x in InOrder(t) ==> x in InOrder(u)
    ensures Nodes(t) <= Nodes(u)
  {
    forall x | x in Nodes(t) ensures x in Nodes(u) {
      var i := NodeAt(t, x);
      var e := InOrder(t)[i];
      assert e in InOrder(t);
      var j :| 0 <= j < |InOrder(u)| && InOrder(u)[j] == e;
      InOrderAt(u, j);
    }
  }

  /** Trees with one in-order sequence have the same nodes, distinct or not. */
  lemma SameInOrder(t: Tree, u: Tree)
    requires InOrder(t) == InOrder(u)
    ensures Nodes(t) == Nodes(u) && Size(t) == Size(u)
    ensures Distinct(t) <==> Distinct(u)
  {
    SubsetOfInOrder(t, u);
    SubsetOfInOrder(u, t);
    InOrderLength(t);
    InOrderLength(u);
    if Distinct(t) { DistinctNoRepeat(t); NoRepeatDistinct(u); }
    if Distinct(u) { DistinctNoRepeat(u); NoRepeatDistinct(t); }
  }
}
