/** How the heap of src/splay.c holds trees and the half-finished states of its
    loops, and what one iteration's pointer assignments do to them. */
module SplayLinks {
  import opened SplayTrees

  // ----- what the heap holds, as a value -----

  datatype Links = Links(left: Node?, right: Node?, up: Node?, key: Key)

  type Heap = map<Node, Links>

  ghost function Snap(s: set<Node>): (h: Heap)
    reads s`left, s`right, s`up, s`key
    ensures h.Keys == s
  {
    map x | x in s :: Links(x.left, x.right, x.up, x.key)
  }

  ghost function Root(t: Tree): Node? {
    if t.Leaf? then null else t.elem.node
  }

  ghost function PathTop(p: Path): Node? {
    if p.Top? then null else p.elem.node
  }

  /** The heap holds the tree: keys, both child links and the uplinks of all
      nodes but the root. */
  ghost predicate Rep(t: Tree, h: Heap) {
    t.Bin? ==>
      var n := t.elem.node;
      && n in h && h[n].key == t.elem.key
      && h[n].left == Root(t.left) && h[n].right == Root(t.right)
      && Rep(t.left, h) && Rep(t.right, h)
      && (t.left.Bin? ==> h[t.left.elem.node].up == n)
      && (t.right.Bin? ==> h[t.right.elem.node].up == n)
  }

  /** The heap holds the path, up to a root without uplink; its hole is `child`. */
  ghost predicate RepPath(p: Path, child: Node, h: Heap) {
    !p.Top? ==>
      var n := p.elem.node;
      && n in h && h[n].key == p.elem.key
      && h[n].left == (if p.Lefter? then child else Root(p.sib))
      && h[n].right == (if p.Lefter? then Root(p.sib) else child)
      && h[n].up == PathTop(p.up)
      && Rep(p.sib, h)
      && (p.sib.Bin? ==> h[p.sib.elem.node].up == n)
      && RepPath(p.up, n, h)
  }

  /** Rep does not depend on the root's uplink. */
  lemma {:induction false} RepKept(t: Tree, h: Heap, h': Heap)
    requires Distinct(t) && Rep(t, h)
    requires forall x :: x in Nodes(t) ==> x in h && x in h' && h'[x] == h[x].(up := h'[x].up)
    requires forall x :: x in Nodes(t) && x != Root(t) ==> h'[x].up == h[x].up
    ensures Rep(t, h')
  {
    if t.Bin? {
      RepKept(t.left, h, h');
      RepKept(t.right, h, h');
    }
  }

  lemma {:induction false} RepPathKept(p: Path, child: Node, h: Heap, h': Heap)
    requires DistinctPath(p) && RepPath(p, child, h)
    requires forall x :: x in PathNodes(p) ==> x in h && x in h' && h'[x] == h[x]
    ensures RepPath(p, child, h')
  {
    if !p.Top? {
      RepKept(p.sib, h, h');
      RepPathKept(p.up, p.elem.node, h, h');
    }
  }

  /** RepPath survives when only the link into the hole is redirected. */
  lemma RepPathRelinked(p: Path, was: Node, child: Node, h: Heap, h': Heap)
    requires DistinctPath(p) && RepPath(p, was, h)
    requires forall x :: x in PathNodes(p) ==> x in h && x in h'
    requires forall x :: x in PathNodes(p) && x != PathTop(p) ==> h'[x] == h[x]
    requires !p.Top? ==>
      var n := p.elem.node; h'[n] == if p.Lefter? then h[n].(left := child) else h[n].(right := child)
    ensures RepPath(p, child, h')
  {
    if !p.Top? {
      RepKept(p.sib, h, h');
      RepPathKept(p.up, p.elem.node, h, h');
    }
  }

  lemma {:induction false} Unzip(t: Tree, p: Path, h: Heap)
    requires t.Bin? && Rep(Zip(t, p), h) && (Root(Zip(t, p)) == null || h[Root(Zip(t, p))].up == null)
    ensures Rep(t, h) && RepPath(p, t.elem.node, h) && h[t.elem.node].up == PathTop(p)
    decreases p
  {
    ZipNodes(t, p);
    match p
    case Top =>
    case Lefter(e, sib, up) => Unzip(Bin(t, e, sib), up, h);
    case Righter(e, sib, up) => Unzip(Bin(sib, e, t), up, h);
  }

  /** The nodes of the loop's state, without the heap. */
  ghost predicate Pieces(n: Node, l: Tree, r: Tree, p: Path) {
    && n !in Nodes(l) && n !in Nodes(r) && n !in PathNodes(p)
    && Distinct(l) && Distinct(r) && DistinctPath(p)
    && Nodes(l) !! Nodes(r) && Nodes(l) !! PathNodes(p) && Nodes(r) !! PathNodes(p)
  }

  /** The state of _splay's loop: disjoint left tree, right tree and remaining
      path around n, all in the heap; `prev` is the hole of the path. */
  ghost predicate Halfway(n: Node, l: Tree, r: Tree, p: Path, prev: Node, h: Heap) {
    && n in h && Pieces(n, l, r, p)
    && h.Keys == {n} + Nodes(l) + Nodes(r) + PathNodes(p)
    && prev !in PathNodes(p)
    && Rep(l, h) && Rep(r, h) && RepPath(p, prev, h)
  }

  /** Five pointers of which those that are not null differ. */
  ghost predicate Apart(a: Node, b: Node, c: Node?, d: Node?, e: Node?) {
    && a != b && a != c && a != d && a != e && b != c && b != d && b != e
    && (c != null ==> c != d && c != e) && (d != null ==> d != e)
  }

  /** `h'` is `h` after the rotating iteration on `u` and its parent `uu`, whose
      parent `top` has them on its left or not; `inner` is the subtree between
      them and `t` the tree that goes below `u`. */
  ghost predicate Rotated(lefter: bool, u: Node, uu: Node, inner: Node?, t: Node?, top: Node?, topLefter: bool,
          h: Heap, h': Heap)
  {
    && h.Keys == h'.Keys && u in h && uu in h
    && (forall x :: x in h && x !in {u, uu} && x != inner && x != t && x != top ==> h'[x] == h[x])
    && h'[u] == (if lefter then Links(t, uu, top, h[u].key) else Links(uu, t, top, h[u].key))
    && h'[uu] == (if lefter then Links(inner, h[uu].right, u, h[uu].key) else Links(h[uu].left, inner, u, h[uu].key))
    && (inner != null ==> inner in h && h'[inner] == h[inner].(up := uu))
    && (t != null ==> t in h && h'[t] == h[t].(up := u))
    && (top != null ==> top in h && h'[top] == if topLefter then h[top].(left := u) else h[top].(right := u))
  }

  lemma RotatedTree(p: Path, t: Tree, prev: Node, h: Heap, h': Heap)
    requires !p.Top? && !p.up.Top? && p.Lefter? == p.up.Lefter?
    requires DistinctPath(p) && Distinct(t) && Nodes(t) !! PathNodes(p) && Nodes(t) + PathNodes(p) <= h.Keys
    requires RepPath(p, prev, h) && Rep(t, h)
    requires Rotated(p.Lefter?, p.elem.node, p.up.elem.node, Root(p.sib), Root(t), PathTop(p.up.up), p.up.up.Lefter?,
            h, h')
    ensures Rep(t, h') && Rep(p.sib, h')
  {
    RepKept(t, h, h');
    assert Nodes(p.sib) <= PathNodes(p);
    RepKept(p.sib, h, h');
  }

  lemma RotatedSibling(p: Path, t: Tree, prev: Node, h: Heap, h': Heap)
    requires !p.Top? && !p.up.Top? && p.Lefter? == p.up.Lefter?
    requires DistinctPath(p) && Distinct(t) && Nodes(t) !! PathNodes(p) && Nodes(t) + PathNodes(p) <= h.Keys
    requires RepPath(p, prev, h) && Rep(t, h)
    requires Rotated(p.Lefter?, p.elem.node, p.up.elem.node, Root(p.sib), Root(t), PathTop(p.up.up), p.up.up.Lefter?,
            h, h')
    ensures Rep(p.up.sib, h')
    ensures p.up.sib.Bin? ==> h'[p.up.sib.elem.node].up == p.up.elem.node
  {
    assert RepPath(p.up, p.elem.node, h);
    assert Nodes(p.up.sib) <= PathNodes(p.up) <= PathNodes(p);
    RepKept(p.up.sib, h, h');
    if p.up.sib.Bin? {
      var x := p.up.sib.elem.node;
      assert x in Nodes(p.up.sib) && x !in Nodes(p.sib) && x !in Nodes(t) && x !in PathNodes(p.up.up);
    }
  }

  lemma RotatedRest(p: Path, t: Tree, prev: Node, h: Heap, h': Heap)
    requires !p.Top? && !p.up.Top? && p.Lefter? == p.up.Lefter?
    requires DistinctPath(p) && Distinct(t) && Nodes(t) !! PathNodes(p) && Nodes(t) + PathNodes(p) <= h.Keys
    requires RepPath(p, prev, h) && Rep(t, h)
    requires Rotated(p.Lefter?, p.elem.node, p.up.elem.node, Root(p.sib), Root(t), PathTop(p.up.up), p.up.up.Lefter?,
            h, h')
    ensures RepPath(p.up.up, p.elem.node, h')
  {
    var rest := p.up.up;
    assert RepPath(p.up, p.elem.node, h);
    assert RepPath(rest, p.up.elem.node, h);
    assert PathNodes(rest) <= PathNodes(p.up) && PathNodes(p.up) <= PathNodes(p);
    RepPathRelinked(rest, p.up.elem.node, p.elem.node, h, h');
  }

  lemma RotatedRep(p: Path, t: Tree, prev: Node, h: Heap, h': Heap)
    requires !p.Top? && !p.up.Top? && p.Lefter? == p.up.Lefter?
    requires DistinctPath(p) && Distinct(t) && Nodes(t) !! PathNodes(p) && Nodes(t) + PathNodes(p) <= h.Keys
    requires RepPath(p, prev, h) && Rep(t, h)
    requires Rotated(p.Lefter?, p.elem.node, p.up.elem.node, Root(p.sib), Root(t), PathTop(p.up.up), p.up.up.Lefter?,
            h, h')
    ensures p.Lefter? ==> Rep(Bin(t, p.elem, Bin(p.sib, p.up.elem, p.up.sib)), h')
    ensures p.Righter? ==> Rep(Bin(Bin(p.up.sib, p.up.elem, p.sib), p.elem, t), h')
    ensures RepPath(p.up.up, p.elem.node, h')
  {
    RotatedTree(p, t, prev, h, h');
    RotatedSibling(p, t, prev, h, h');
    RotatedRest(p, t, prev, h, h');
    var u, uu := p.elem.node, p.up.elem.node;
    assert RepPath(p.up, u, h);
    if p.Lefter? {
      assert Rep(Bin(p.sib, p.up.elem, p.up.sib), h');
    } else {
      assert Rep(Bin(p.up.sib, p.up.elem, p.sib), h');
    }
  }

  /** The other iteration hangs `t` below `u` and climbs one node. */
  ghost predicate Hung(lefter: bool, u: Node, t: Node?, h: Heap, h': Heap) {
    && h.Keys == h'.Keys && u in h && u != t
    && (forall x :: x in h && x != u && x != t ==> h'[x] == h[x])
    && h'[u] == (if lefter then h[u].(left := t) else h[u].(right := t))
    && (t != null ==> t in h && h'[t] == h[t].(up := u))
  }

  lemma HungRep(p: Path, t: Tree, prev: Node, h: Heap, h': Heap)
    requires !p.Top? && DistinctPath(p) && Distinct(t) && Nodes(t) !! PathNodes(p) && Nodes(t) + PathNodes(p) <= h.Keys
    requires RepPath(p, prev, h) && Rep(t, h) && Hung(p.Lefter?, p.elem.node, Root(t), h, h')
    ensures p.Lefter? ==> Rep(Bin(t, p.elem, p.sib), h')
    ensures p.Righter? ==> Rep(Bin(p.sib, p.elem, t), h')
    ensures RepPath(p.up, p.elem.node, h')
  {
    RepKept(t, h, h');
    assert Nodes(p.sib) <= PathNodes(p) && PathNodes(p.up) <= PathNodes(p);
    RepKept(p.sib, h, h');
    RepPathKept(p.up, p.elem.node, h, h');
  }

  /** The pointer tests of the loop tell which way the path bends. */
  lemma Bends(p: Path, prev: Node, h: Heap)
    requires !p.Top? && RepPath(p, prev, h) && prev !in PathNodes(p)
    ensures p.elem.node in h && (h[p.elem.node].left == prev <==> p.Lefter?)
    ensures h[p.elem.node].right == prev <==> p.Righter?
    ensures h[p.elem.node].up == PathTop(p.up) && RepPath(p.up, p.elem.node, h)
  {
    assert p.sib.Bin? ==> p.sib.elem.node in Nodes(p.sib);
  }

  lemma RotationApart(p: Path, t: Tree)
    requires !p.Top? && !p.up.Top? && DistinctPath(p) && Nodes(t) !! PathNodes(p)
    ensures Apart(p.elem.node, p.up.elem.node, Root(p.sib), Root(t), PathTop(p.up.up))
    ensures Nodes(p.sib) <= PathNodes(p) && PathNodes(p.up) <= PathNodes(p) && PathNodes(p.up.up) <= PathNodes(p.up)
  {
  }

  /** The nodes an iteration takes off the path go to the tree it grows. */
  lemma StepNodes(l: Tree, r: Tree, p: Path)
    requires !p.Top? && DistinctPath(p)
    ensures var (l', r', p') := SplayStep(l, r, p);
            && PathNodes(p') <= PathNodes(p) && p.elem.node !in PathNodes(p') && DistinctPath(p')
            && Nodes(l') == Nodes(l) + (if p.Lefter? then {} else PathNodes(p) - PathNodes(p'))
            && Nodes(r') == Nodes(r) + (if p.Lefter? then PathNodes(p) - PathNodes(p') else {})
  {
    var (l', r', p') := SplayStep(l, r, p);
    if p.up.Top? || p.Lefter? != p.up.Lefter? {
      assert PathNodes(p) - PathNodes(p') == {p.elem.node} + Nodes(p.sib);
    } else {
      assert PathNodes(p) == {p.elem.node} + Nodes(p.sib) + ({p.up.elem.node} + Nodes(p.up.sib) + PathNodes(p'));
      assert PathNodes(p) - PathNodes(p') == {p.elem.node} + Nodes(p.sib) + {p.up.elem.node} + Nodes(p.up.sib);
    }
  }

  lemma StepDistinct(l: Tree, r: Tree, p: Path)
    requires !p.Top? && DistinctPath(p) && Distinct(l) && Distinct(r)
    requires Nodes(l) !! PathNodes(p) && Nodes(r) !! PathNodes(p)
    ensures var (l', r', p') := SplayStep(l, r, p); Distinct(l') && Distinct(r')
  {
    if !p.up.Top? && p.Lefter? == p.up.Lefter? {
      var u, uu := p.elem, p.up.elem;
      if p.Lefter? {
        assert Distinct(Bin(p.sib, uu, p.up.sib));
      } else {
        assert Distinct(Bin(p.up.sib, uu, p.sib));
      }
    }
  }

  /** The state in which the loop starts. */
  lemma StartHalfway(t: Tree, n: Node, h: Heap)
    requires n in Nodes(t) && Distinct(t) && Rep(t, h) && h.Keys == Nodes(t) && h[t.elem.node].up == null
    ensures var s, p := SubtreeAt(t, n), PathTo(t, n, Top);
            && Halfway(n, s.left, s.right, p, n, h)
            && h[n] == Links(Root(s.left), Root(s.right), PathTop(p), s.elem.key)
  {
    var s, p := SubtreeAt(t, n), PathTo(t, n, Top);
    PathToZip(t, n, Top);
    ZipNodes(s, p);
    Unzip(s, p, h);
  }

  /** Whether the iteration at `up`, on the given side of n, rotates. */
  ghost predicate Rotates(lefter: bool, up: Node, h: Heap) {
    && up in h && h[up].up != null && h[up].up in h
    && (if lefter then h[h[up].up].left == up else h[h[up].up].right == up)
  }

  /** The pointers an iteration touches do not coincide. */
  ghost predicate StepReady(lefter: bool, up: Node, t: Node?, h: Heap) {
    && up in h && up != t && (t != null ==> t in h) && (h[up].up != null ==> h[up].up in h)
    && (Rotates(lefter, up, h) ==>
      var uu, inner := h[up].up, if lefter then h[up].right else h[up].left;
      && Apart(up, uu, inner, t, h[uu].up)
      && (inner != null ==> inner in h) && (h[uu].up != null ==> h[uu].up in h))
  }

  /** `h'` is `h` after one iteration. */
  ghost predicate Stepped(lefter: bool, up: Node, t: Node?, h: Heap, h': Heap)
    requires StepReady(lefter, up, t, h)
  {
    if Rotates(lefter, up, h) then
      var uu := h[up].up;
      var inner, top := if lefter then h[up].right else h[up].left, h[uu].up;
      var topLefter := top != null && (if lefter then h[top].left == uu else h[top].right != uu);
      Rotated(lefter, up, uu, inner, t, top, topLefter, h, h')
    else Hung(lefter, up, t, h, h')
  }

  /** Where the iteration goes on. */
  ghost function NextUp(lefter: bool, up: Node, h: Heap): Node?
    requires up in h
  {
    if Rotates(lefter, up, h) then h[h[up].up].up else h[up].up
  }

  lemma ReadyToStep(n: Node, l: Tree, r: Tree, p: Path, prev: Node, h: Heap)
    requires !p.Top? && Halfway(n, l, r, p, prev, h)
    ensures h[p.elem.node].left == prev <==> p.Lefter?
    ensures StepReady(p.Lefter?, p.elem.node, Root(if p.Lefter? then r else l), h)
    ensures Rotates(p.Lefter?, p.elem.node, h) <==> !p.up.Top? && p.up.Lefter? == p.Lefter?
    ensures NextUp(p.Lefter?, p.elem.node, h) == PathTop(SplayStep(l, r, p).2)
  {
    var t := if p.Lefter? then r else l;
    Bends(p, prev, h);
    if !p.up.Top? {
      RotationApart(p, t);
      Bends(p.up, p.elem.node, h);
    }
  }

  lemma StepRotated(p: Path, t: Tree, prev: Node, h: Heap, h': Heap)
    requires !p.Top? && !p.up.Top? && p.Lefter? == p.up.Lefter?
    requires DistinctPath(p) && Distinct(t) && Nodes(t) !! PathNodes(p) && Nodes(t) + PathNodes(p) <= h.Keys
    requires RepPath(p, prev, h) && Rep(t, h)
    requires Rotates(p.Lefter?, p.elem.node, h) && StepReady(p.Lefter?, p.elem.node, Root(t), h)
    requires Stepped(p.Lefter?, p.elem.node, Root(t), h, h')
    ensures p.Lefter? ==> Rep(Bin(t, p.elem, Bin(p.sib, p.up.elem, p.up.sib)), h')
    ensures p.Righter? ==> Rep(Bin(Bin(p.up.sib, p.up.elem, p.sib), p.elem, t), h')
    ensures RepPath(p.up.up, p.elem.node, h')
  {
    var rest := p.up.up;
    assert RepPath(p.up, p.elem.node, h);
    if !rest.Top? {
      assert p.up.elem.node !in PathNodes(rest);
      Bends(rest, p.up.elem.node, h);
    }
    RotatedRep(p, t, prev, h, h');
  }

  /** An iteration touches only the path and the tree it grows. */
  lemma StepUntouched(p: Path, t: Tree, prev: Node, h: Heap, h': Heap)
    requires !p.Top? && RepPath(p, prev, h)
    requires StepReady(p.Lefter?, p.elem.node, Root(t), h) && Stepped(p.Lefter?, p.elem.node, Root(t), h, h')
    ensures h'.Keys == h.Keys
    ensures forall x :: x in h && x !in PathNodes(p) && x !in Nodes(t) ==> h'[x] == h[x]
  {
    if Rotates(p.Lefter?, p.elem.node, h) {
      assert RepPath(p.up, p.elem.node, h);
      assert p.sib.Bin? ==> p.sib.elem.node in PathNodes(p);
      assert p.up.sib.Bin? ==> p.up.sib.elem.node in PathNodes(p.up);
      assert !p.up.up.Top? ==> p.up.up.elem.node in PathNodes(p.up.up);
    }
  }

  lemma StepReps(l: Tree, r: Tree, p: Path, prev: Node, h: Heap, h': Heap)
    requires !p.Top? && RepPath(p, prev, h) && Rep(l, h) && Rep(r, h)
    requires Distinct(l) && Distinct(r) && DistinctPath(p)
    requires Nodes(l) !! Nodes(r) && Nodes(l) !! PathNodes(p) && Nodes(r) !! PathNodes(p)
    requires Nodes(l) + Nodes(r) + PathNodes(p) <= h.Keys
    requires StepReady(p.Lefter?, p.elem.node, Root(if p.Lefter? then r else l), h)
    requires Stepped(p.Lefter?, p.elem.node, Root(if p.Lefter? then r else l), h, h')
    requires Rotates(p.Lefter?, p.elem.node, h) <==> !p.up.Top? && p.up.Lefter? == p.Lefter?
    ensures var (l', r', p') := SplayStep(l, r, p);
            Rep(l', h') && Rep(r', h') && RepPath(p', p.elem.node, h')
  {
    var t, o := if p.Lefter? then r else l, if p.Lefter? then l else r;
    StepUntouched(p, t, prev, h, h');
    RepKept(o, h, h');
    if Rotates(p.Lefter?, p.elem.node, h) {
      StepRotated(p, t, prev, h, h');
    } else {
      HungRep(p, t, prev, h, h');
    }
  }

  lemma StepPieces(n: Node, l: Tree, r: Tree, p: Path)
    requires !p.Top? && Pieces(n, l, r, p)
    ensures var (l', r', p') := SplayStep(l, r, p);
            && Pieces(n, l', r', p') && p.elem.node !in PathNodes(p')
            && Nodes(l') + Nodes(r') + PathNodes(p') == Nodes(l) + Nodes(r) + PathNodes(p)
  {
    var (l', r', p') := SplayStep(l, r, p);
    StepNodes(l, r, p);
    StepDistinct(l, r, p);
    var taken := PathNodes(p) - PathNodes(p');
    if p.Lefter? {
      assert Nodes(l') == Nodes(l) && Nodes(r') == Nodes(r) + taken;
    } else {
      assert Nodes(l') == Nodes(l) + taken && Nodes(r') == Nodes(r);
    }
  }

  /** The loop of _splay stays well-formed, and grows its trees by SplayStep. */
  lemma HalfwayStep(n: Node, l: Tree, r: Tree, p: Path, prev: Node, h: Heap, h': Heap)
    requires !p.Top? && Halfway(n, l, r, p, prev, h)
    requires StepReady(p.Lefter?, p.elem.node, Root(if p.Lefter? then r else l), h)
    requires Stepped(p.Lefter?, p.elem.node, Root(if p.Lefter? then r else l), h, h')
    ensures var (l', r', p') := SplayStep(l, r, p);
            Halfway(n, l', r', p', p.elem.node, h') && h'[n].key == h[n].key
  {
    hide Rep, RepPath, Distinct, DistinctPath, Nodes, PathNodes, SplayStep, StepReady, Stepped, Rotates, NextUp;
    ReadyToStep(n, l, r, p, prev, h);
    StepReps(l, r, p, prev, h, h');
    StepUntouched(p, if p.Lefter? then r else l, prev, h, h');
    StepPieces(n, l, r, p);
  }

  lemma StepCounts(l: Tree, r: Tree, p: Path)
    requires !p.Top?
    ensures var (l', r', p') := SplayStep(l, r, p);
            SplayUp(l, r, p) == SplayUp(l', r', p') && SplayLoops(p) == 1 + SplayLoops(p')
  {
    assert SplayStep(l, r, p).2 == SplayStep(Leaf, Leaf, p).2;
  }

  lemma SplayedShape(t: Tree, n: Node)
    requires n in Nodes(t)
    ensures var u := Splayed(SubtreeAt(t, n), PathTo(t, n, Top));
            && InOrder(u) == InOrder(t) && Nodes(u) == Nodes(t) && Size(u) == Size(t)
            && (Distinct(u) <==> Distinct(t)) && (Ordered(u) <==> Ordered(t))
  {
    SplayedInOrder(SubtreeAt(t, n), PathTo(t, n, Top));
    PathToZip(t, n, Top);
    SameInOrder(Splayed(SubtreeAt(t, n), PathTo(t, n, Top)), t);
  }

  // ----- _sp_enq: the tree being split -----

  ghost function Tip(p: Path, n: Node): Node {
    if p.Top? then n else p.elem.node
  }

  /** One of the two trees _sp_enq builds, hanging from n on the wrong side: the
      left tree runs down right links (`righter`) and ends in the hole at its
      tip; the right tree mirrors it. */
  ghost predicate RepSpine(righter: bool, p: Path, n: Node, h: Heap)
    requires n in h
  {
    !p.Top? ==>
      var x, above := p.elem.node, Tip(p.up, n);
      && p.Righter? == righter
      && x in h && h[x].key == p.elem.key && h[x].up == above
      && (if righter then h[x].left else h[x].right) == Root(p.sib)
      && Rep(p.sib, h) && (p.sib.Bin? ==> h[p.sib.elem.node].up == x)
      && above in h && (if righter then h[above].right else h[above].left) == x
      && RepSpine(righter, p.up, n, h)
  }

  /** RepSpine constrains neither the hole nor the other side of n. */
  lemma {:induction false} SpineKept(righter: bool, p: Path, n: Node, h: Heap, h': Heap)
    requires n in h && n in h' && n !in PathNodes(p) && DistinctPath(p) && RepSpine(righter, p, n, h)
    requires forall x :: x in PathNodes(p) ==> x in h && x in h'
    requires forall x :: x in PathNodes(p) && x != PathTop(p) ==> h'[x] == h[x]
    requires !p.Top? ==>
      var x := p.elem.node;
      && h'[x] == (if righter then h[x].(right := h'[x].right) else h[x].(left := h'[x].left))
      && (if righter then h'[n].right == h[n].right else h'[n].left == h[n].left)
    ensures RepSpine(righter, p, n, h')
  {
    if !p.Top? {
      RepKept(p.sib, h, h');
      SpineKept(righter, p.up, n, h, h');
    }
  }

  /** Filling the hole completes the tree. */
  lemma {:induction false} SpineClosed(righter: bool, p: Path, sub: Tree, n: Node, h: Heap)
    requires n in h && RepSpine(righter, p, n, h) && Rep(sub, h)
    requires Tip(p, n) in h && (if righter then h[Tip(p, n)].right else h[Tip(p, n)].left) == Root(sub)
    requires sub.Bin? ==> h[sub.elem.node].up == Tip(p, n)
    ensures var t := Zip(sub, p);
            && Rep(t, h) && (t.Bin? ==> t.elem.node in h && h[t.elem.node].up == n)
            && (if righter then h[n].right else h[n].left) == Root(t)
    decreases p
  {
    if !p.Top? {
      SpineClosed(righter, p.up, if righter then Bin(p.sib, p.elem, sub) else Bin(sub, p.elem, p.sib), n, h);
    }
  }

  /** One round of the split: what moves from the rest `t` to the two spines. */
  function DivideStep(pl: Path, pr: Path, t: Tree, key: Key): (next: (Path, Path, Tree))
    requires t.Bin?
    ensures Size(next.2) < Size(t)
  {
    if t.elem.key < key then
      var temp := t.right;
      if temp.Leaf? || !(temp.elem.key < key) then (Righter(t.elem, t.left, pl), pr, temp)
      else (Righter(temp.elem, Bin(t.left, t.elem, temp.left), pl), pr, temp.right)
    else
      var temp := t.left;
      if temp.Leaf? || temp.elem.key < key then (pl, Lefter(t.elem, t.right, pr), temp)
      else (pl, Lefter(temp.elem, Bin(temp.right, t.elem, t.right), pr), temp.left)
  }

  lemma DivideSplits(pl: Path, pr: Path, t: Tree, key: Key)
    requires t.Bin?
    ensures var (pl', pr', t') := DivideStep(pl, pr, t, key);
            && Zip(Split(t', key).0, pl') == Zip(Split(t, key).0, pl)
            && Zip(Split(t', key).1, pr') == Zip(Split(t, key).1, pr)
  {
  }

  ghost predicate DividePieces(n: Node, pl: Path, pr: Path, t: Tree) {
    && n !in PathNodes(pl) && n !in PathNodes(pr) && n !in Nodes(t)
    && DistinctPath(pl) && DistinctPath(pr) && Distinct(t)
    && PathNodes(pl) !! PathNodes(pr) && PathNodes(pl) !! Nodes(t) && PathNodes(pr) !! Nodes(t)
  }

  /** The spines and the rest still spell the sequence of the tree `t0`. */
  ghost predicate DivideSpells(pl: Path, pr: Path, t: Tree, t0: Tree) {
    && After(pl) == [] && Before(pr) == []
    && Before(pl) + InOrder(t) + After(pr) == InOrder(t0)
  }

  lemma DivideSpellsLower(pl: Path, pr: Path, t: Tree, key: Key, t0: Tree)
    requires t.Bin? && t.elem.key < key && DivideSpells(pl, pr, t, t0)
    ensures var (pl', pr', t') := DivideStep(pl, pr, t, key); DivideSpells(pl', pr', t', t0)
  {
    var t' := DivideStep(pl, pr, t, key).2;
    if t.right.Leaf? || !(t.right.elem.key < key) {
      Regroup1(InOrder(t.left), t.elem, InOrder(t'), Before(pl));
    } else {
      var low := Bin(t.left, t.elem, t.right.left);
      Regroup(InOrder(t.left), t.elem, InOrder(t.right.left), t.right.elem, InOrder(t'), []);
      assert InOrder(t) == InOrder(low) + [t.right.elem] + InOrder(t');
      Regroup1(InOrder(low), t.right.elem, InOrder(t'), Before(pl));
    }
  }

  lemma Reassociate<T>(b: seq<T>, x: seq<T>, a: seq<T>, y: seq<T>, c: seq<T>)
    requires x + a == y + c
    ensures b + x + a == b + y + c
  {
    assert b + x + a == b + (x + a);
  }

  lemma DivideSpellsUpper(pl: Path, pr: Path, t: Tree, key: Key, t0: Tree)
    requires t.Bin? && !(t.elem.key < key) && DivideSpells(pl, pr, t, t0)
    ensures var (pl', pr', t') := DivideStep(pl, pr, t, key); DivideSpells(pl', pr', t', t0)
  {
    var (_, pr', t') := DivideStep(pl, pr, t, key);
    if t.left.Leaf? || t.left.elem.key < key {
      Regroup1(InOrder(t'), t.elem, InOrder(t.right), After(pr));
    } else {
      var high := Bin(t.left.right, t.elem, t.right);
      Regroup(InOrder(t'), t.left.elem, InOrder(t.left.right), t.elem, InOrder(t.right), []);
      assert InOrder(t) == InOrder(t') + [t.left.elem] + InOrder(high);
      Regroup1(InOrder(t'), t.left.elem, InOrder(high), After(pr));
    }
    Reassociate(Before(pl), InOrder(t), After(pr), InOrder(t'), After(pr'));
  }

  lemma DividePiecesOf(n: Node, pl: Path, pr: Path, t: Tree, t0: Tree)
    requires DivideSpells(pl, pr, t, t0) && Distinct(t0) && n !in Nodes(t0)
    ensures DividePieces(n, pl, pr, t)
    ensures PathNodes(pl) + PathNodes(pr) + Nodes(t) == Nodes(t0)
  {
    var u := Zip(t, pl);
    var w := Zip(u, pr);
    ZipInOrder(t, pl);
    ZipInOrder(u, pr);
    assert InOrder(w) == InOrder(t0);
    SameInOrder(w, t0);
    ZipNodes(t, pl);
    ZipNodes(u, pr);
  }

  /** Hang `x` from the tip of its spine. */
  ghost predicate Appended(righter: bool, tip: Node, x: Node, h: Heap, h': Heap) {
    && h.Keys == h'.Keys && tip in h && x in h && tip != x
    && (forall y :: y in h && y != tip && y != x ==> h'[y] == h[y])
    && h'[tip] == (if righter then h[tip].(right := x) else h[tip].(left := x))
    && h'[x] == h[x].(up := tip)
  }

  /** Rotate `x` below its child `temp` and hang `temp` from the tip. */
  ghost predicate AppendedRotated(righter: bool, tip: Node, x: Node, temp: Node, inner: Node?, h: Heap, h': Heap) {
    && h.Keys == h'.Keys && tip in h && x in h && temp in h
    && (forall y :: y in h && y !in {tip, x, temp} && y != inner ==> h'[y] == h[y])
    && h'[tip] == (if righter then h[tip].(right := temp) else h[tip].(left := temp))
    && h'[temp] == (if righter then h[temp].(left := x, up := tip) else h[temp].(right := x, up := tip))
    && h'[x] == (if righter then h[x].(right := inner, up := temp) else h[x].(left := inner, up := temp))
    && (inner != null ==> inner in h && h'[inner] == h[inner].(up := x))
  }

  /** The state of _sp_enq's loops. */
  ghost predicate Dividing(n: Node, pl: Path, pr: Path, t: Tree, h: Heap) {
    && n in h && DividePieces(n, pl, pr, t)
    && h.Keys == {n} + PathNodes(pl) + PathNodes(pr) + Nodes(t)
    && RepSpine(true, pl, n, h) && RepSpine(false, pr, n, h) && Rep(t, h)
  }

  /** The tip a round works on. */
  ghost function WorkTip(n: Node, pl: Path, pr: Path, lower: bool): Node {
    if lower then Tip(pl, n) else Tip(pr, n)
  }

  ghost predicate RoundRotates(t: Tree, key: Key)
    requires t.Bin?
  {
    if t.elem.key < key then t.right.Bin? && t.right.elem.key < key
    else t.left.Bin? && !(t.left.elem.key < key)
  }

  lemma SpinesKept(n: Node, pl: Path, pr: Path, t: Tree, lower: bool, h: Heap, h': Heap)
    requires Dividing(n, pl, pr, t, h) && h'.Keys == h.Keys
    requires var tip := WorkTip(n, pl, pr, lower);
             && h'[tip] == (if lower then h[tip].(right := h'[tip].right) else h[tip].(left := h'[tip].left))
             && forall x :: x in h && x !in Nodes(t) && x != tip ==> h'[x] == h[x]
    ensures RepSpine(true, pl, n, h') && RepSpine(false, pr, n, h')
  {
    SpineKept(true, pl, n, h, h');
    SpineKept(false, pr, n, h, h');
  }

  /** A round without rotation. */
  lemma RoundAppended(n: Node, pl: Path, pr: Path, t: Tree, key: Key, h: Heap, h': Heap)
    requires t.Bin? && Dividing(n, pl, pr, t, h) && !RoundRotates(t, key)
    requires Appended(t.elem.key < key, WorkTip(n, pl, pr, t.elem.key < key), t.elem.node, h, h')
    ensures var (pl', pr', t') := DivideStep(pl, pr, t, key);
            && RepSpine(true, pl', n, h') && RepSpine(false, pr', n, h') && Rep(t', h')
            && h'[t.elem.node] == h[t.elem.node].(up := WorkTip(n, pl, pr, t.elem.key < key))
  {
    SpinesKept(n, pl, pr, t, t.elem.key < key, h, h');
    RepKept(t.left, h, h');
    RepKept(t.right, h, h');
  }

  /** A round with a rotation: the subtrees it moves stay intact. */
  lemma RotatedSubtrees(n: Node, pl: Path, pr: Path, t: Tree, temp: Tree, lower: bool, h: Heap, h': Heap)
    requires t.Bin? && Dividing(n, pl, pr, t, h) && temp == (if lower then t.right else t.left) && temp.Bin?
    requires AppendedRotated(lower, WorkTip(n, pl, pr, lower), t.elem.node, temp.elem.node,
                             Root(if lower then temp.left else temp.right), h, h')
    ensures Rep(temp.left, h') && Rep(temp.right, h') && Rep(if lower then t.left else t.right, h')
    ensures var o := if lower then t.left else t.right; o.Bin? ==> h'[o.elem.node] == h[o.elem.node]
  {
    var o := if lower then t.left else t.right;
    assert WorkTip(n, pl, pr, lower) !in Nodes(t) && Nodes(temp) <= Nodes(t) && Rep(temp, h) && Distinct(temp);
    assert Rep(o, h') by { RepKept(o, h, h'); }
    assert Rep(temp.left, h') by { RepKept(temp.left, h, h'); }
    assert Rep(temp.right, h') by { RepKept(temp.right, h, h'); }
    assert o.Bin? ==> o.elem.node in Nodes(o);
  }

  lemma RoundRotatedLower(n: Node, pl: Path, pr: Path, t: Tree, key: Key, h: Heap, h': Heap)
    requires t.Bin? && Dividing(n, pl, pr, t, h) && t.elem.key < key && RoundRotates(t, key)
    requires AppendedRotated(true, Tip(pl, n), t.elem.node, t.right.elem.node, Root(t.right.left), h, h')
    ensures var (pl', pr', t') := DivideStep(pl, pr, t, key);
            && RepSpine(true, pl', n, h') && RepSpine(false, pr', n, h') && Rep(t', h')
  {
    var temp := t.right;
    assert Rep(temp, h) && temp.elem.node in Nodes(t);
    RotatedSubtrees(n, pl, pr, t, temp, true, h, h');
    RotatedSpines(n, pl, pr, t, temp, true, h, h');
    assert Rep(Bin(t.left, t.elem, temp.left), h');
  }

  lemma RotatedSpines(n: Node, pl: Path, pr: Path, t: Tree, temp: Tree, lower: bool, h: Heap, h': Heap)
    requires t.Bin? && Dividing(n, pl, pr, t, h) && temp == (if lower then t.right else t.left) && temp.Bin?
    requires AppendedRotated(lower, WorkTip(n, pl, pr, lower), t.elem.node, temp.elem.node,
                             Root(if lower then temp.left else temp.right), h, h')
    ensures RepSpine(true, pl, n, h') && RepSpine(false, pr, n, h')
  {
    assert Nodes(temp) <= Nodes(t) && (temp.left.Bin? ==> temp.left.elem.node in Nodes(temp))
           && (temp.right.Bin? ==> temp.right.elem.node in Nodes(temp));
    SpinesKept(n, pl, pr, t, lower, h, h');
  }

  lemma RoundRotatedUpper(n: Node, pl: Path, pr: Path, t: Tree, key: Key, h: Heap, h': Heap)
    requires t.Bin? && Dividing(n, pl, pr, t, h) && !(t.elem.key < key) && RoundRotates(t, key)
    requires AppendedRotated(false, Tip(pr, n), t.elem.node, t.left.elem.node, Root(t.left.right), h, h')
    ensures var (pl', pr', t') := DivideStep(pl, pr, t, key);
            && RepSpine(true, pl', n, h') && RepSpine(false, pr', n, h') && Rep(t', h')
  {
    var temp := t.left;
    assert Rep(temp, h) && temp.elem.node in Nodes(t);
    RotatedSubtrees(n, pl, pr, t, temp, false, h, h');
    RotatedSpines(n, pl, pr, t, temp, false, h, h');
    assert Rep(Bin(temp.right, t.elem, t.right), h');
  }

  /** All that a round needs of the pointers. */
  ghost predicate RoundReady(tip: Node, x: Node, lower: bool, key: Key, h: Heap) {
    && tip in h && x in h && tip != x
    && ChildReady(tip, x, if lower then h[x].right else h[x].left, lower, h)
  }

  ghost predicate ChildReady(tip: Node, x: Node, temp: Node?, lower: bool, h: Heap) {
    temp != null ==>
      && temp in h && temp != x && temp != tip
      && (h[temp].left != null ==> h[temp].left in h && h[temp].left !in {tip, x, temp})
      && (h[temp].right != null ==> h[temp].right in h && h[temp].right !in {tip, x, temp})
  }

  lemma ReadyForRound(n: Node, pl: Path, pr: Path, t: Tree, key: Key, h: Heap)
    requires t.Bin? && Dividing(n, pl, pr, t, h)
    ensures var lower := t.elem.key < key;
            var temp, tip := if lower then t.right else t.left, WorkTip(n, pl, pr, lower);
            && RoundReady(tip, t.elem.node, lower, key, h)
            && (if lower then h[t.elem.node].right else h[t.elem.node].left) == Root(temp)
            && (temp.Bin? ==>
                 && h[temp.elem.node].key == temp.elem.key
                 && h[temp.elem.node].left == Root(temp.left) && h[temp.elem.node].right == Root(temp.right)
                 && Nodes(temp) <= Nodes(t))
  {
    var temp := if t.elem.key < key then t.right else t.left;
    assert Rep(temp, h) && Distinct(temp) && Nodes(temp) <= Nodes(t);
    if temp.Bin? {
      assert temp.left.Bin? ==> temp.left.elem.node in Nodes(temp.left);
      assert temp.right.Bin? ==> temp.right.elem.node in Nodes(temp.right);
    }
  }

  /** A round, as the two methods below perform it. */
  ghost predicate Round(tip: Node, x: Node, lower: bool, key: Key, h: Heap, h': Heap)
    requires RoundReady(tip, x, lower, key, h)
  {
    var temp := if lower then h[x].right else h[x].left;
    if temp != null && (h[temp].key < key <==> lower) then
      AppendedRotated(lower, tip, x, temp, if lower then h[temp].left else h[temp].right, h, h')
    else Appended(lower, tip, x, h, h')
  }

  ghost predicate RoundGoesOn(tip': Node, next': Node?, lower': bool, x: Node, lower: bool, key: Key, h: Heap)
    requires x in h
  {
    var temp := if lower then h[x].right else h[x].left;
    if temp != null && temp in h && (h[temp].key < key <==> lower) then
      && tip' == temp && next' == (if lower then h[temp].right else h[temp].left)
      && (next' != null ==> next' in h && (lower' <==> h[next'].key < key))
    else tip' == x && next' == temp && (next' != null ==> lower' == !lower)
  }

  ghost function RoundCmps(next': Node?, x: Node, lower: bool, key: Key, h: Heap): nat
    requires x in h
  {
    var temp := if lower then h[x].right else h[x].left;
    if temp == null then 0
    else if temp in h && (h[temp].key < key <==> lower) && next' != null then 2 else 1
  }

  lemma RoundReps(n: Node, pl: Path, pr: Path, t: Tree, key: Key, h: Heap, h': Heap)
    requires t.Bin? && Dividing(n, pl, pr, t, h)
    requires var tip := WorkTip(n, pl, pr, t.elem.key < key);
             RoundReady(tip, t.elem.node, t.elem.key < key, key, h)
                     && Round(tip, t.elem.node, t.elem.key < key, key, h, h')
    ensures n in h' && var (pl', pr', t') := DivideStep(pl, pr, t, key);
            RepSpine(true, pl', n, h') && RepSpine(false, pr', n, h') && Rep(t', h')
  {
    ReadyForRound(n, pl, pr, t, key, h);
    if !RoundRotates(t, key) {
      RoundAppended(n, pl, pr, t, key, h, h');
    } else if t.elem.key < key {
      RoundRotatedLower(n, pl, pr, t, key, h, h');
    } else {
      RoundRotatedUpper(n, pl, pr, t, key, h, h');
    }
  }

  /** A round keeps the state of the split and moves what DivideStep says. */
  lemma DividingRound(n: Node, pl: Path, pr: Path, t: Tree, key: Key, t0: Tree, h: Heap, h': Heap)
    requires t.Bin? && Dividing(n, pl, pr, t, h) && DivideSpells(pl, pr, t, t0) && Distinct(t0) && n !in Nodes(t0)
    requires h.Keys == {n} + Nodes(t0)
    requires var tip := WorkTip(n, pl, pr, t.elem.key < key);
             RoundReady(tip, t.elem.node, t.elem.key < key, key, h)
                     && Round(tip, t.elem.node, t.elem.key < key, key, h, h')
    ensures var (pl', pr', t') := DivideStep(pl, pr, t, key);
            && Dividing(n, pl', pr', t', h') && DivideSpells(pl', pr', t', t0)
            && h'[n].key == h[n].key && h'[n].up == h[n].up
  {
    var (pl', pr', t') := DivideStep(pl, pr, t, key);
    if t.elem.key < key { DivideSpellsLower(pl, pr, t, key, t0); } else { DivideSpellsUpper(pl, pr, t, key, t0); }
    DividePiecesOf(n, pl', pr', t', t0);
    RoundKeepsRoot(n, pl, pr, t, key, h, h');
    RoundReps(n, pl, pr, t, key, h, h');
  }

  lemma RoundKeepsRoot(n: Node, pl: Path, pr: Path, t: Tree, key: Key, h: Heap, h': Heap)
    requires t.Bin? && Dividing(n, pl, pr, t, h)
    requires var tip := WorkTip(n, pl, pr, t.elem.key < key);
             RoundReady(tip, t.elem.node, t.elem.key < key, key, h)
                     && Round(tip, t.elem.node, t.elem.key < key, key, h, h')
    ensures h'.Keys == h.Keys && h'[n].key == h[n].key && h'[n].up == h[n].up
  {
    var lower := t.elem.key < key;
    var temp := if lower then t.right else t.left;
    assert Rep(temp, h) && Nodes(temp) <= Nodes(t);
    assert temp.Bin? ==> Nodes(temp.left) <= Nodes(temp) && Nodes(temp.right) <= Nodes(temp);
  }

  /** The pointers after a round are the tip and the rest of DivideStep. */
  lemma RoundPointers(n: Node, pl: Path, pr: Path, t: Tree, key: Key, h: Heap, tip': Node, next': Node?, lower': bool)
    requires t.Bin? && Dividing(n, pl, pr, t, h)
    requires RoundGoesOn(tip', next', lower', t.elem.node, t.elem.key < key, key, h)
    ensures var (pl', pr', t') := DivideStep(pl, pr, t, key);
            && tip' == WorkTip(n, pl', pr', t.elem.key < key)
            && (if t.elem.key < key then pr' == pr else pl' == pl)
            && next' == Root(t') && (t'.Bin? ==> (lower' <==> t'.elem.key < key))
            && SplitCmps(t, key) == SplitCmps(t', key) + RoundCmps(next', t.elem.node, t.elem.key < key, key, h)
                                    + (if t'.Bin? then 0 else 1)
  {
    ReadyForRound(n, pl, pr, t, key, h);
    var temp := if t.elem.key < key then t.right else t.left;
    assert Rep(temp, h);
    assert temp.Bin? ==> Rep(temp.left, h) && Rep(temp.right, h);
  }

  /** With both holes closed, the spines are the two trees of the split. */
  lemma SpinesClosed(n: Node, pl: Path, pr: Path, h: Heap)
    requires n in h && RepSpine(true, pl, n, h) && RepSpine(false, pr, n, h)
    requires Tip(pl, n) in h && h[Tip(pl, n)].right == null && Tip(pr, n) in h && h[Tip(pr, n)].left == null
    ensures var l, r := Zip(Leaf, pl), Zip(Leaf, pr);
            && Rep(l, h) && Rep(r, h) && h[n].right == Root(l) && h[n].left == Root(r)
            && (l.Bin? ==> l.elem.node in h && h[l.elem.node].up == n)
            && (r.Bin? ==> r.elem.node in h && h[r.elem.node].up == n)
  {
    SpineClosed(true, pl, Leaf, n, h);
    SpineClosed(false, pr, Leaf, n, h);
  }

  lemma {:induction false} RepInHeap(t: Tree, h: Heap)
    requires Rep(t, h)
    ensures Nodes(t) <= h.Keys
  {
    if t.Bin? {
      RepInHeap(t.left, h);
      RepInHeap(t.right, h);
    }
  }

  /** The tree _sp_enq makes. */
  function Enqueued(t: Tree, key: Key, n: Node): Tree {
    Bin(Split(t, key).0, Elem(n, key), Split(t, key).1)
  }

  lemma InstalledShape(t: Tree, key: Key, n: Node)
    requires Ordered(t) && Distinct(t) && !HasKey(InOrder(t), key) && n !in Nodes(t)
    ensures var (l, r) := Split(t, key);
            n !in Nodes(l) && n !in Nodes(r) && Distinct(l) && Distinct(r)
    ensures Installed(t, key, n) == Enqueued(t, key, n)
    ensures Distinct(Enqueued(t, key, n)) && Nodes(Enqueued(t, key, n)) == {n} + Nodes(t)
    ensures Ordered(Enqueued(t, key, n)) && Size(Enqueued(t, key, n)) == Size(t) + 1
  {
    var (l, r) := Split(t, key);
    SeekFinds(t, key, Top);
    InstalledInOrder(t, key, n);
    SplitInOrder(t, key);
    InOrderLength(t);
    InOrderLength(Installed(t, key, n));
    SplitNodes(t, key);
  }

  /** `r` grafted to the end of `l`. */
  ghost function Graft(l: Tree, r: Tree): Tree {
    if l.Leaf? then r else Bin(l.left, l.elem, Graft(l.right, r))
  }

  lemma {:induction false} GraftInOrder(l: Tree, r: Tree)
    ensures InOrder(Graft(l, r)) == InOrder(l) + InOrder(r)
  {
    if l.Bin? {
      GraftInOrder(l.right, r);
      Regroup1(InOrder(l.left), l.elem, InOrder(l.right), InOrder(r));
      Regroup1(InOrder(l.left), l.elem, InOrder(l.right) + InOrder(r), []);
      assert [l.elem] + InOrder(l.right) + InOrder(r) == [l.elem] + (InOrder(l.right) + InOrder(r));
    }
  }

  lemma {:induction false} GraftNodes(l: Tree, r: Tree)
    ensures Nodes(Graft(l, r)) == Nodes(l) + Nodes(r)
    ensures Distinct(Graft(l, r)) ==> Distinct(l) && Distinct(r) && Nodes(l) !! Nodes(r)
  {
    if l.Bin? { GraftNodes(l.right, r); }
  }

  /** Two trees that together spell a distinct tree share out its nodes. */
  lemma SharedOut(l: Tree, r: Tree, t: Tree)
    requires Distinct(t) && InOrder(l) + InOrder(r) == InOrder(t)
    ensures Distinct(l) && Distinct(r) && Nodes(l) !! Nodes(r) && Nodes(l) + Nodes(r) == Nodes(t)
  {
    GraftInOrder(l, r);
    SameInOrder(Graft(l, r), t);
    GraftNodes(l, r);
  }

  lemma SplitNodes(t: Tree, key: Key)
    requires Distinct(t)
    ensures var (l, r) := Split(t, key);
            Distinct(l) && Distinct(r) && Nodes(l) !! Nodes(r) && Nodes(l) + Nodes(r) == Nodes(t)
  {
    SplitInOrder(t, key);
    SharedOut(Split(t, key).0, Split(t, key).1, t);
  }

  // ----- _sp_deq: the left branch of a subtree -----

  /** The part of the subtree above `next`: a path that only bends left and ends
      at the subtree's root, whose own uplink is not constrained. */
  ghost predicate RepDescent(p: Path, child: Node?, h: Heap) {
    !p.Top? ==>
      var x := p.elem.node;
      && p.Lefter? && x in h && h[x].key == p.elem.key
      && h[x].left == child && h[x].right == Root(p.sib)
      && (!p.up.Top? ==> h[x].up == p.up.elem.node)
      && Rep(p.sib, h) && (p.sib.Bin? ==> h[p.sib.elem.node].up == x)
      && RepDescent(p.up, x, h)
  }

  lemma {:induction false} DescentKept(p: Path, child: Node?, h: Heap, h': Heap)
    requires DistinctPath(p) && RepDescent(p, child, h)
    requires forall x :: x in PathNodes(p) ==> x in h && x in h' && h'[x] == h[x]
    ensures RepDescent(p, child, h')
  {
    if !p.Top? {
      RepKept(p.sib, h, h');
      DescentKept(p.up, p.elem.node, h, h');
    }
  }

  lemma {:induction false} DescentClosed(p: Path, sub: Tree, h: Heap)
    requires RepDescent(p, Root(sub), h) && Rep(sub, h)
    requires sub.Bin? && !p.Top? ==> h[sub.elem.node].up == p.elem.node
    ensures Rep(Zip(sub, p), h) && (!p.Top? || sub.Bin? ==> Zip(sub, p).Bin?)
    decreases p
  {
    if !p.Top? {
      DescentClosed(p.up, Bin(sub, p.elem, p.sib), h);
    }
  }

  /** The subtree that _sp_deq's loop goes on with after a rotation. */
  function DeqRotated(t: Tree): Tree
    requires t.Bin? && t.left.Bin? && t.left.left.Bin?
  {
    var left, farleft := t.left, t.left.left;
    Bin(farleft.left, farleft.elem, Bin(farleft.right, left.elem, left.right))
  }

  /** The state of the loop: the path above and the current subtree spell `t0`. */
  ghost predicate Descending(p: Path, t: Tree, t0: Tree, h: Heap) {
    && t.Bin? && t.left.Bin?
    && Before(p) == [] && InOrder(t) + After(p) == InOrder(t0) && Distinct(t0) && h.Keys == Nodes(t0)
    && RepDescent(p, t.elem.node, h) && Rep(t, h) && (!p.Top? ==> h[t.elem.node].up == p.elem.node)
  }

  lemma DescendingPieces(p: Path, t: Tree, t0: Tree)
    requires Before(p) == [] && InOrder(t) + After(p) == InOrder(t0) && Distinct(t0)
    ensures Distinct(t) && DistinctPath(p) && Nodes(t) !! PathNodes(p) && Nodes(t) + PathNodes(p) == Nodes(t0)
  {
    assert InOrder(Zip(t, p)) == InOrder(t0) by {
      ZipInOrder(t, p);
      assert [] + InOrder(t) == InOrder(t);
    }
    SameInOrder(Zip(t, p), t0);
    ZipNodes(t, p);
  }

  /** `h'` is `h` after the rotation at `next`: src/splay.c:654-660. */
  ghost predicate DeqTurned(next: Node, left: Node, farleft: Node, inner: Node?, h: Heap, h': Heap) {
    && h.Keys == h'.Keys && next in h && left in h && farleft in h
    && (forall x :: x in h && x !in {next, left, farleft} && x != inner ==> h'[x] == h[x])
    && h'[next] == h[next].(left := farleft)
    && h'[farleft] == h[farleft].(up := next, right := left)
    && h'[left] == h[left].(left := inner, up := farleft)
    && (inner != null ==> inner in h && h'[inner] == h[inner].(up := left))
  }

  lemma DescendingSpells(p: Path, t: Tree, t0: Tree)
    requires t.Bin? && t.left.Bin? && t.left.left.Bin?
    requires Before(p) == [] && InOrder(t) + After(p) == InOrder(t0)
    ensures var p' := Lefter(t.elem, t.right, p);
            Before(p') == [] && InOrder(DeqRotated(t)) + After(p') == InOrder(t0)
  {
    var left, farleft := t.left, t.left.left;
    Regroup(InOrder(farleft.left), farleft.elem, InOrder(farleft.right), left.elem, InOrder(left.right), []);
    assert InOrder(DeqRotated(t)) == InOrder(left);
    Regroup1(InOrder(left), t.elem, InOrder(t.right), After(p));
  }

  lemma DescendingTurn(p: Path, t: Tree, t0: Tree, h: Heap, h': Heap)
    requires Descending(p, t, t0, h) && t.left.left.Bin? && t.left.left.left.Bin?
    requires DeqTurned(t.elem.node, t.left.elem.node, t.left.left.elem.node, Root(t.left.left.right), h, h')
    ensures var p', t' := Lefter(t.elem, t.right, p), DeqRotated(t);
            && Descending(p', t', t0, h')
            && DeqLeft(t').0 == DeqLeft(t).0 && Zip(DeqLeft(t').1, p') == Zip(DeqLeft(t).1, p)
            && t'.elem == t.left.left.elem && t'.left == t.left.left.left
  {
    DescendingPieces(p, t, t0);
    DescendingSpells(p, t, t0);
    DeqTurnedReps(t, h, h');
    var left, farleft := t.left, t.left.left;
    assert Nodes(left) <= Nodes(t) && Nodes(farleft) <= Nodes(left) && Nodes(farleft.right) <= Nodes(farleft);
    assert farleft.right.Bin? ==> farleft.right.elem.node in Nodes(farleft.right);
    DescentKept(p, t.elem.node, h, h');
  }

  lemma DeqTurnedReps(t: Tree, h: Heap, h': Heap)
    requires t.Bin? && t.left.Bin? && t.left.left.Bin? && Distinct(t) && Rep(t, h)
    requires DeqTurned(t.elem.node, t.left.elem.node, t.left.left.elem.node, Root(t.left.left.right), h, h')
    ensures Rep(t.right, h') && (t.right.Bin? ==> h'[t.right.elem.node].up == t.elem.node)
    ensures Rep(DeqRotated(t), h')
  {
    var left, farleft := t.left, t.left.left;
    RepInHeap(t, h);
    assert Nodes(left) <= Nodes(t) && Nodes(farleft) <= Nodes(left) && Distinct(left) && Distinct(farleft);
    assert Rep(left, h) && Rep(farleft, h);
    assert farleft.right.Bin? ==> farleft.right.elem.node in Nodes(farleft.right);
    assert t.right.Bin? ==> t.right.elem.node in Nodes(t.right);
    RepKept(t.right, h, h');
    DeqTurnedLow(left, t.elem.node, h, h');
  }

  lemma DeqTurnedLow(left: Tree, next: Node, h: Heap, h': Heap)
    requires left.Bin? && left.left.Bin? && Distinct(left) && Rep(left, h) && Nodes(left) <= h.Keys
            && next !in Nodes(left)
    requires DeqTurned(next, left.elem.node, left.left.elem.node, Root(left.left.right), h, h')
    ensures var farleft := left.left; Rep(Bin(farleft.left, farleft.elem, Bin(farleft.right, left.elem, left.right)),
            h')
  {
    var farleft := left.left;
    assert Distinct(farleft) && Rep(farleft, h) && Nodes(farleft) <= Nodes(left);
    assert farleft.right.Bin? ==> farleft.right.elem.node in Nodes(farleft.right);
    assert left.right.Bin? ==> left.right.elem.node in Nodes(left.right);
    assert farleft.left.Bin? ==> farleft.left.elem.node in Nodes(farleft.left);
    RepKept(left.right, h, h');
    RepKept(farleft.left, h, h');
    RepKept(farleft.right, h, h');
    assert Rep(Bin(farleft.right, left.elem, left.right), h');
  }

  /** In a search tree the way to a node is the search for its key. */
  lemma {:induction false} PathIsSeek(t: Tree, n: Node, key: Key, acc: Path)
    requires Ordered(t) && Distinct(t) && Seek(t, key, acc).0.Bin? && Seek(t, key, acc).0.elem.node == n
    ensures n in Nodes(t) && SubtreeAt(t, n) == Seek(t, key, acc).0 && PathTo(t, n, acc) == Seek(t, key, acc).1
  {
    if t.elem.key != key {
      OrderedParts(t);
      if key < t.elem.key {
        PathIsSeek(t.left, n, key, Lefter(t.elem, t.right, acc));
      } else {
        PathIsSeek(t.right, n, key, Righter(t.elem, t.left, acc));
      }
    }
  }

  lemma SeekIsPathTo(t: Tree, key: Key)
    requires Ordered(t) && Distinct(t) && Seek(t, key, Top).0.Bin?
    ensures var (s, p) := Seek(t, key, Top); var n := s.elem.node;
            n in Nodes(t) && SubtreeAt(t, n) == s && PathTo(t, n, Top) == p && s.elem.key == key
  {
    PathIsSeek(t, Seek(t, key, Top).0.elem.node, key, Top);
    SeekZip(t, key, Top);
  }

  /** The search for a node's own key finds the node. */
  lemma {:induction false} NodeIsSought(t: Tree, n: Node, acc: Path)
    requires Ordered(t) && n in Nodes(t)
    ensures Seek(t, SubtreeAt(t, n).elem.key, acc) == (SubtreeAt(t, n), PathTo(t, n, acc))
    ensures SubtreeAt(t, n).elem in InOrder(t)
  {
    if t.elem.node == n {
    } else if n in Nodes(t.left) {
      OrderedParts(t);
      NodeIsSought(t.left, n, Lefter(t.elem, t.right, acc));
    } else {
      OrderedParts(t);
      NodeIsSought(t.right, n, Righter(t.elem, t.left, acc));
    }
  }

  lemma {:induction false} KeyOfNode(t: Tree, n: Node, h: Heap)
    requires Rep(t, h) && n in Nodes(t)
    ensures n in h && h[n].key == SubtreeAt(t, n).elem.key
  {
    if t.elem.node == n {
    } else if n in Nodes(t.left) {
      KeyOfNode(t.left, n, h);
    } else {
      KeyOfNode(t.right, n, h);
    }
  }

  // ----- the end of _sp_deq -----

  /** The node above the one taken out skips it. */
  ghost predicate Unlinked(above: Node, gone: Node, inner: Node?, h: Heap, h': Heap) {
    && h.Keys == h'.Keys && above in h && above != gone
    && (forall x :: x in h && x != above && x != inner ==> h'[x] == h[x])
    && h'[above] == h[above].(left := inner)
    && (inner != null ==> inner in h && inner != above && h'[inner] == h[inner].(up := above))
  }

  lemma UnlinkedRep(t: Tree, h: Heap, h': Heap)
    requires t.Bin? && t.left.Bin? && t.left.left.Leaf? && Distinct(t) && Rep(t, h)
    requires Unlinked(t.elem.node, t.left.elem.node, Root(t.left.right), h, h')
    ensures Rep(Bin(t.left.right, t.elem, t.right), h')
  {
    var left := t.left;
    RepInHeap(t, h);
    assert Rep(left, h) && Distinct(left) && Nodes(left.right) <= Nodes(left);
    assert left.right.Bin? ==> left.right.elem.node in Nodes(left.right);
    RepKept(left.right, h, h');
    RepKept(t.right, h, h');
    assert t.right.Bin? ==> t.right.elem.node in Nodes(t.right);
  }

  /** First exit of the loop: the least node is `next`'s left child. */
  lemma DescendingEndNear(p: Path, t: Tree, t0: Tree, h: Heap, h': Heap)
    requires Descending(p, t, t0, h) && t.left.left.Leaf?
    requires Unlinked(t.elem.node, t.left.elem.node, Root(t.left.right), h, h')
    ensures Rep(Zip(DeqLeft(t).1, p), h') && DeqLeft(t).0 == t.left.elem
  {
    DescendingPieces(p, t, t0);
    UnlinkedRep(t, h, h');
    assert Nodes(t.left) <= Nodes(t);
    assert t.left.right.Bin? ==> t.left.right.elem.node in Nodes(t.left);
    DescentKept(p, t.elem.node, h, h');
    assert h'[t.elem.node] == h[t.elem.node].(left := h'[t.elem.node].left);
    DescentClosed(p, Bin(t.left.right, t.elem, t.right), h');
  }

  /** Second exit: it is one further down. */
  lemma DescendingEndFar(p: Path, t: Tree, t0: Tree, h: Heap, h': Heap)
    requires Descending(p, t, t0, h) && t.left.left.Bin? && t.left.left.left.Leaf?
    requires Unlinked(t.left.elem.node, t.left.left.elem.node, Root(t.left.left.right), h, h')
    ensures Rep(Zip(DeqLeft(t).1, p), h') && DeqLeft(t).0 == t.left.left.elem
  {
    DescendingPieces(p, t, t0);
    var left := t.left;
    assert Nodes(left) <= Nodes(t) && Distinct(left) && Rep(left, h);
    UnlinkedRep(left, h, h');
    UnlinkedElsewhere(t, h, h');
    assert left.left.right.Bin? ==> left.left.right.elem.node in Nodes(left.left);
    DescentKept(p, t.elem.node, h, h');
    DescentClosed(p, Bin(Bin(left.left.right, left.elem, left.right), t.elem, t.right), h');
  }

  lemma UnlinkedElsewhere(t: Tree, h: Heap, h': Heap)
    requires t.Bin? && t.left.Bin? && t.left.left.Bin? && Distinct(t) && Rep(t, h)
    requires Unlinked(t.left.elem.node, t.left.left.elem.node, Root(t.left.left.right), h, h')
    ensures Rep(t.right, h') && h'[t.elem.node] == h[t.elem.node]
    ensures t.right.Bin? ==> h'[t.right.elem.node] == h[t.right.elem.node]
    ensures h'[t.left.elem.node].up == t.elem.node
  {
    var inner := t.left.left.right;
    RepInHeap(t, h);
    assert Nodes(t.left.left) <= Nodes(t.left) && Nodes(inner) <= Nodes(t.left.left);
    assert inner.Bin? ==> inner.elem.node in Nodes(inner);
    assert t.right.Bin? ==> t.right.elem.node in Nodes(t.right);
    assert t.left.elem.node in Nodes(t.left);
    RepKept(t.right, h, h');
  }

  /** What the loop relies on for its reads and writes. */
  lemma DescendingPointers(p: Path, t: Tree, t0: Tree, h: Heap)
    requires Descending(p, t, t0, h)
    ensures var next, left := t.elem.node, t.left.elem.node;
            && next in h && left in h && next != left && h[next].left == left
            && h[left].left == Root(t.left.left) && h[left].right == Root(t.left.right)
            && (t.left.right.Bin? ==> t.left.right.elem.node in h && t.left.right.elem.node !in {next, left})
            && (t.left.left.Bin? ==> PointersBelow(next, left, t.left.left, h))
  {
    DescendingPieces(p, t, t0);
    RepInHeap(t, h);
    var left := t.left;
    assert Distinct(left) && Rep(left, h) && Nodes(left) <= Nodes(t);
    assert left.right.Bin? ==> left.right.elem.node in Nodes(left.right);
    if left.left.Bin? {
      var f := left.left;
      assert Distinct(f) && Rep(f, h) && Nodes(f) <= Nodes(left);
      assert f.right.Bin? ==> f.right.elem.node in Nodes(f.right);
      assert f.left.Bin? ==> f.left.elem.node in Nodes(f.left);
    }
  }

  ghost predicate PointersBelow(next: Node, left: Node, f: Tree, h: Heap)
    requires f.Bin?
  {
    var farleft := f.elem.node;
    && farleft in h && farleft != next && farleft != left
    && h[farleft].left == Root(f.left) && h[farleft].right == Root(f.right)
    && (f.right.Bin? ==> f.right.elem.node in h && f.right.elem.node !in {next, left, farleft})
  }

  /** When there is a left branch, the root of the subtree stays. */
  lemma DeqLeftRoot(t: Tree)
    requires t.Bin? && t.left.Bin?
    ensures DeqLeft(t).1.Bin? && DeqLeft(t).1.elem == t.elem
  {
  }

  /** Deleting the root keeps all other nodes. */
  lemma DeletedNodes(t: Tree)
    requires t.Bin? && Distinct(t)
    ensures Distinct(Deleted(t)) && Nodes(Deleted(t)) == Nodes(t) - {t.elem.node}
    ensures t.right.Bin? ==>
      var (m, rest) := Deq(t.right);
      Distinct(rest) && Nodes(rest) + {m.node} == Nodes(t.right) && m.node !in Nodes(rest)
  {
    if t.right.Bin? {
      var (m, rest) := Deq(t.right);
      DeqInOrder(t.right);
      var u := Bin(Leaf, m, rest);
      assert InOrder(u) == [m] + InOrder(rest);
      SameInOrder(u, t.right);
    }
  }

  lemma {:induction false} RepKeys(t: Tree, h: Heap, i: nat)
    requires Rep(t, h) && i < |InOrder(t)|
    ensures InOrder(t)[i].node in h && h[InOrder(t)[i].node].key == InOrder(t)[i].key
  {
    var m := |InOrder(t.left)|;
    if i < m {
      RepKeys(t.left, h, i);
    } else if i > m {
      RepKeys(t.right, h, i - m - 1);
    }
  }

  lemma LeastKey(t: Tree, h: Heap)
    requires t.Bin? && Rep(t, h)
    ensures Deq(t).0.node in h && h[Deq(t).0.node].key == Deq(t).0.key
  {
    DeqInOrder(t);
    assert InOrder(t)[0] == Deq(t).0;
    RepKeys(t, h, 0);
  }

  /** What sp_delete does to the shape, told by the key of the node. */
  lemma SoughtShape(t: Tree, n: Node, key: Key)
    requires Ordered(t) && Distinct(t) && n in Nodes(t) && SubtreeAt(t, n).elem.key == key
    ensures var u := Splayed(SubtreeAt(t, n), PathTo(t, n, Top));
            && Deleted(u) == Removed(t, key) && HasKey(InOrder(t), key)
            && Ordered(Removed(t, key)) && Size(Removed(t, key)) == Size(t) - 1
    ensures Seek(t, key, Top) == (SubtreeAt(t, n), PathTo(t, n, Top))
  {
    NodeIsSought(t, n, Top);
    SeekFinds(t, key, Top);
    RemovedInOrder(t, key);
    InOrderLength(t);
    InOrderLength(Removed(t, key));
  }

  /** Keys in the sequence are keys of nodes, and tell the nodes apart. */
  lemma KeysOfNodes(t: Tree, h: Heap, key: Key)
    requires Rep(t, h)
    ensures Nodes(t) <= h.Keys
    ensures HasKey(InOrder(t), key) <==> exists n :: n in Nodes(t) && h[n].key == key
  {
    RepInHeap(t, h);
    if HasKey(InOrder(t), key) {
      var i :| 0 <= i < |InOrder(t)| && InOrder(t)[i].key == key;
      RepKeys(t, h, i);
      InOrderAt(t, i);
    }
    if n :| n in Nodes(t) && h[n].key == key {
      var i := NodeAt(t, n);
      RepKeys(t, h, i);
    }
  }

  lemma KeyTellsNode(t: Tree, h: Heap, a: Node, b: Node)
    requires Rep(t, h) && Ordered(t) && a in Nodes(t) && b in Nodes(t)
    ensures a in h && b in h && (h[a].key == h[b].key ==> a == b)
  {
    var i := NodeAt(t, a);
    var j := NodeAt(t, b);
    RepKeys(t, h, i);
    RepKeys(t, h, j);
    if h[a].key == h[b].key { AscendingTells(InOrder(t), i, j); }
  }

  lemma AscendingTells(s: seq<Elem>, i: nat, j: nat)
    requires Ascending(s) && i < |s| && j < |s| && s[i].key == s[j].key
    ensures i == j
  {
  }
}
