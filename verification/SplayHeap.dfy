/** src/splay.c on the heap: nodes with three links, rewritten in place. */
module SplayHeap {
  import opened SplayTrees
  import opened SplayCost
  import opened SplayLinks
  import opened SplayPool

  /** struct sptree. */
  /** What a client asks of a tree: to find a key, to install one, or to look one up and delete it. */
  datatype Call = Look(key: Key) | Put(key: Key) | Drop(key: Key)

  /** The operations that a call comes to, on a tree that has its key or not. */
  ghost predicate ComesTo(c: Call, ops: seq<Op>, there: bool) {
    match c
    case Look(key) => ops == [Find(key)]
    case Put(key) => |ops| == 1 && ops[0].Install? && ops[0].key == key
    case Drop(key) => ops == [Find(key)] + if there then [Delete(key)] else []
  }

  function OpsOf(parts: seq<seq<Op>>): seq<Op> {
    if parts == [] then [] else OpsOf(parts[..|parts| - 1]) + parts[|parts| - 1]
  }

  /** A run of calls from the tree `t`: what each came to, and whether it found its key. */
  ghost predicate Called(t: Tree, calls: seq<Call>, parts: seq<seq<Op>>, found: seq<bool>) {
    && |parts| == |found| == |calls|
    && forall i :: 0 <= i < |calls| ==> CalledAt(t, calls, parts, found, i)
  }

  ghost predicate CalledAt(t: Tree, calls: seq<Call>, parts: seq<seq<Op>>, found: seq<bool>, i: nat)
    requires i < |parts| == |found| == |calls|
  {
    && (found[i] <==> HasKey(InOrder(RunTree(t, OpsOf(parts[..i]))), calls[i].key))
    && ComesTo(calls[i], parts[i], found[i])
  }

  lemma CalledMore(t: Tree, calls: seq<Call>, parts: seq<seq<Op>>, found: seq<bool>, i: nat, part: seq<Op>, there: bool)
    requires i < |calls| && Called(t, calls[..i], parts, found)
    requires there <==> HasKey(InOrder(RunTree(t, OpsOf(parts))), calls[i].key)
    requires ComesTo(calls[i], part, there)
    ensures Called(t, calls[..i + 1], parts + [part], found + [there]) && OpsOf(parts + [part]) == OpsOf(parts) + part
  {
    hide OpsOf, HasKey, InOrder, RunTree, ComesTo;
    var calls', parts', found' := calls[..i + 1], parts + [part], found + [there];
    assert parts'[..i] == parts;
    forall j | 0 <= j <= i ensures CalledAt(t, calls', parts', found', j) {
      if j < i {
        assert CalledAt(t, calls[..i], parts, found, j);
        assert parts'[..j] == parts[..j] && calls'[j] == calls[..i][j];
      }
    }
    OpsOfMore(parts, part);
  }

  lemma OpsOfMore(parts: seq<seq<Op>>, part: seq<Op>)
    ensures OpsOf(parts + [part]) == OpsOf(parts) + part
  {
    assert (parts + [part])[..|parts|] == parts;
  }

  class SpTree {
    var root: Node?
    var eltscnt: int
    var lookups: int
    var lkpcmps: int
    var enqs: int
    var enqcmps: int
    var splays: int
    var splayloops: int
    ghost var shape: Tree

    /** Links, order and distinctness: what every operation relies on. */
    ghost predicate Linked()
      reads this`root, this`shape, Nodes(shape)`left, Nodes(shape)`right, Nodes(shape)`up, Nodes(shape)`key
    {
      && root == Root(shape) && (root != null ==> root.up == null)
      && Rep(shape, Snap(Nodes(shape))) && Distinct(shape) && Ordered(shape)
    }

    ghost predicate Valid()
      reads this, Nodes(shape)`left, Nodes(shape)`right, Nodes(shape)`up, Nodes(shape)`key
    {
      Linked() && eltscnt == Size(shape)
    }

    /** sp_init */
    constructor ()
      ensures Valid() && shape == Leaf
      ensures lookups == lkpcmps == enqs == enqcmps == splays == splayloops == 0
    {
      root := null;
      eltscnt, lookups, lkpcmps, enqs, enqcmps, splays, splayloops := 0, 0, 0, 0, 0, 0, 0;
      shape := Leaf;
    }

    /** One iteration of _splay with `up` to the right of n: src/splay.c:710-731. */
    method StepLefter(up: Node, right: Node?, ghost all: set<Node>) returns (next: Node?)
      requires StepReady(true, up, right, Snap(all))
      modifies this`root, all`left, all`right, all`up
      ensures Stepped(true, up, right, old(Snap(all)), Snap(all))
      ensures next == old(NextUp(true, up, Snap(all)))
    {
      var upup := up.up;
      if upup != null && upup.left == up {
        var upupup := upup.up;
        upup.left := up.right;
        if upup.left != null {
          upup.left.up := upup;
        }
        up.right := upup;
        upup.up := up;
        if upupup == null {
          root := up;
        } else if upupup.left == upup {
          upupup.left := up;
        } else {
          upupup.right := up;
        }
        up.up := upupup;
        upup := upupup;
      }
      up.left := right;
      if right != null {
        right.up := up;
      }
      next := upup;
    }

    /** The same with `up` to the left of n: src/splay.c:734-753. */
    method StepRighter(up: Node, left: Node?, ghost all: set<Node>) returns (next: Node?)
      requires StepReady(false, up, left, Snap(all))
      modifies this`root, all`left, all`right, all`up
      ensures Stepped(false, up, left, old(Snap(all)), Snap(all))
      ensures next == old(NextUp(false, up, Snap(all)))
    {
      var upup := up.up;
      if upup != null && upup.right == up {
        var upupup := upup.up;
        upup.right := up.left;
        if upup.right != null {
          upup.right.up := upup;
        }
        up.left := upup;
        upup.up := up;
        if upupup == null {
          root := up;
        } else if upupup.right == upup {
          upupup.right := up;
        } else {
          upupup.left := up;
        }
        up.up := upupup;
        upup := upupup;
      }
      up.right := left;
      if left != null {
        left.up := up;
      }
      next := upup;
    }

    /** One iteration of _splay, either side. */
    method Climb(prev: Node, up: Node, left: Node?, right: Node?,
                 ghost n: Node, ghost l: Tree, ghost r: Tree, ghost p: Path, ghost all: set<Node>)
      returns (up': Node?, left': Node?, right': Node?)
      requires up == PathTop(p) && left == Root(l) && right == Root(r)
      requires Halfway(n, l, r, p, prev, Snap(all))
      modifies this`root, all`left, all`right, all`up
      ensures var (l', r', p') := SplayStep(l, r, p);
              && up' == PathTop(p') && left' == Root(l') && right' == Root(r')
              && Halfway(n, l', r', p', up, Snap(all))
    {
      ghost var h := Snap(all);
      ReadyToStep(n, l, r, p, prev, h);
      left', right' := left, right;
      if up.left == prev {
        up' := StepLefter(up, right, all);
        right' := up;
      } else {
        up' := StepRighter(up, left, all);
        left' := up;
      }
      HalfwayStep(n, l, r, p, prev, h, Snap(all));
    }

    /** The loop of _splay: src/splay.c:694-757. */
    method ClimbToTop(n: Node, ghost s: Tree, ghost p0: Path, ghost all: set<Node>)
      returns (left: Node?, right: Node?)
      requires s.Bin? && Halfway(n, s.left, s.right, p0, n, Snap(all))
      requires n.left == Root(s.left) && n.right == Root(s.right) && n.up == PathTop(p0)
      modifies this`root, this`splayloops, all`left, all`right, all`up
      ensures var (l, r) := SplayUp(s.left, s.right, p0);
              && left == Root(l) && right == Root(r)
              && Halfway(n, l, r, Top, n, Snap(all))
      ensures splayloops == old(splayloops) + SplayLoops(p0)
    {
      hide Rep, Distinct, DistinctPath, Nodes, SplayStep;
      var prev: Node, up := n, n.up;
      left, right := n.left, n.right;
      ghost var l, r, p := s.left, s.right, p0;
      while up != null
        invariant up == PathTop(p) && left == Root(l) && right == Root(r)
        invariant Halfway(n, l, r, p, prev, Snap(all))
        invariant SplayUp(l, r, p) == SplayUp(s.left, s.right, p0)
        invariant splayloops + SplayLoops(p) == old(splayloops) + SplayLoops(p0)
        decreases Depth(p)
      {
        splayloops := splayloops + 1;
        ghost var next := SplayStep(l, r, p);
        StepCounts(l, r, p);
        var below := up;
        up, left, right := Climb(prev, up, left, right, n, l, r, p, all);
        prev := below;
        l, r, p := next.0, next.1, next.2;
      }
    }

    /** _splay on the links alone: src/splay.c:694-772. */
    method SplayLinks(n: Node, ghost s: Tree, ghost p: Path, ghost all: set<Node>)
      requires s.Bin? && s.elem == Elem(n, n.key) && Halfway(n, s.left, s.right, p, n, Snap(all))
      requires n.left == Root(s.left) && n.right == Root(s.right) && n.up == PathTop(p)
      modifies this`root, this`splays, this`splayloops, all`left, all`right, all`up
      ensures root == n && n.up == null && Rep(Splayed(s, p), Snap(all))
      ensures splays == old(splays) + 1 && splayloops == old(splayloops) + SplayLoops(p)
    {
      hide Rep, Halfway, SplayUp, SplayLoops;
      splays := splays + 1;
      var left, right := ClimbToTop(n, s, p, all);
      Crown(n, left, right, s.elem.key, SplayUp(s.left, s.right, p).0, SplayUp(s.left, s.right, p).1, all);
    }

    /** _splay: n, which must be in the tree, becomes its root. */
    method Splay(n: Node)
      requires Linked() && n in Nodes(shape)
      modifies this`root, this`shape, this`splays, this`splayloops
      modifies Nodes(shape)`left, Nodes(shape)`right, Nodes(shape)`up
      ensures Linked() && root == n
      ensures shape == Splayed(old(SubtreeAt(shape, n)), old(PathTo(shape, n, Top)))
      ensures InOrder(shape) == old(InOrder(shape)) && Nodes(shape) == old(Nodes(shape))
      ensures splays == old(splays) + 1
      ensures splayloops == old(splayloops) + SplayLoops(old(PathTo(shape, n, Top)))
    {
      hide *;
      ghost var t, s, p, all := shape, SubtreeAt(shape, n), PathTo(shape, n, Top), Nodes(shape);
      SplayReady(n);
      SplayLinks(n, s, p, all);
      SplayedShape(t, n);
      shape := Splayed(s, p);
      SplayedLinks(n, s, p);
    }

    lemma SplayReady(n: Node)
      requires Linked() && n in Nodes(shape)
      ensures var s, p := SubtreeAt(shape, n), PathTo(shape, n, Top);
              && s.Bin? && s.elem == Elem(n, n.key) && Halfway(n, s.left, s.right, p, n, Snap(Nodes(shape)))
              && n.left == Root(s.left) && n.right == Root(s.right) && n.up == PathTop(p)
      ensures Distinct(shape) && Ordered(shape)
    {
      StartHalfway(shape, n, Snap(Nodes(shape)));
      hide Rep, Distinct, Ordered, Halfway;
      assert Snap(Nodes(shape))[n] == Links(n.left, n.right, n.up, n.key);
    }

    lemma SplayedLinks(n: Node, s: Tree, p: Path)
      requires s.Bin? && s.elem.node == n && shape == Splayed(s, p)
      requires root == n && n.up == null && Rep(shape, Snap(Nodes(shape))) && Distinct(shape) && Ordered(shape)
      ensures Linked()
    {
      hide Rep, Distinct, Ordered;
    }

    /** The last links of _splay: src/splay.c:765-772. */
    method Crown(n: Node, left: Node?, right: Node?, ghost k: Key, ghost l: Tree, ghost r: Tree, ghost all: set<Node>)
      requires Halfway(n, l, r, Top, n, Snap(all)) && left == Root(l) && right == Root(r) && n.key == k
      modifies this`root, all`left, all`right, all`up
      ensures root == n && Rep(Bin(l, Elem(n, k), r), Snap(all)) && n.up == null
    {
      hide Distinct, RepPath, PathNodes, DistinctPath;
      ghost var h := Snap(all);
      n.left := left;
      n.right := right;
      if left != null {
        left.up := n;
      }
      if right != null {
        right.up := n;
      }
      root := n;
      n.up := null;
      RepKept(l, h, Snap(all));
      RepKept(r, h, Snap(all));
    }

    /** A round of _sp_enq at label `one`: src/splay.c:516-548, except that the
        hole of the other tree is closed by the caller. */
    method RoundLower(left: Node, next: Node, key: Key, ghost all: set<Node>)
      returns (left': Node, next': Node?, lower: bool)
      requires RoundReady(left, next, true, key, Snap(all))
      modifies this`enqcmps, all`left, all`right, all`up
      ensures Round(left, next, true, key, old(Snap(all)), Snap(all))
      ensures RoundGoesOn(left', next', lower, next, true, key, old(Snap(all)))
      ensures enqcmps == old(enqcmps) + RoundCmps(next', next, true, key, old(Snap(all)))
    {
      lower := false;
      var temp := next.right;
      if temp == null {
        left.right := next;
        next.up := left;
        return next, null, false;
      }
      enqcmps := enqcmps + 1;
      if !(temp.key < key) {
        left.right := next;
        next.up := left;
        return next, temp, false;
      }
      next.right := temp.left;
      if temp.left != null {
        temp.left.up := next;
      }
      left.right := temp;
      temp.up := left;
      temp.left := next;
      next.up := temp;
      left' := temp;
      next' := temp.right;
      if next' != null {
        enqcmps := enqcmps + 1;
        lower := next'.key < key;
      }
    }

    /** A round at label `two`: src/splay.c:553-584, likewise. */
    method RoundUpper(right: Node, next: Node, key: Key, ghost all: set<Node>)
      returns (right': Node, next': Node?, lower: bool)
      requires RoundReady(right, next, false, key, Snap(all))
      modifies this`enqcmps, all`left, all`right, all`up
      ensures Round(right, next, false, key, old(Snap(all)), Snap(all))
      ensures RoundGoesOn(right', next', lower, next, false, key, old(Snap(all)))
      ensures enqcmps == old(enqcmps) + RoundCmps(next', next, false, key, old(Snap(all)))
    {
      lower := true;
      var temp := next.left;
      if temp == null {
        right.left := next;
        next.up := right;
        return next, null, true;
      }
      enqcmps := enqcmps + 1;
      if temp.key < key {
        right.left := next;
        next.up := right;
        return next, temp, true;
      }
      next.left := temp.right;
      if temp.right != null {
        temp.right.up := next;
      }
      right.left := temp;
      temp.up := right;
      temp.right := next;
      next.up := temp;
      right' := temp;
      next' := temp.left;
      if next' != null {
        enqcmps := enqcmps + 1;
        lower := next'.key < key;
      }
    }

    /** One round on either side. */
    method OneRound(left: Node, right: Node, next: Node, lower: bool, key: Key,
                    ghost n: Node, ghost pl: Path, ghost pr: Path, ghost t: Tree, ghost t0: Tree, ghost all: set<Node>)
      returns (left': Node, right': Node, next': Node?, lower': bool)
      requires left == Tip(pl, n) && right == Tip(pr, n) && t.Bin? && next == t.elem.node
              && (lower <==> t.elem.key < key)
      requires Dividing(n, pl, pr, t, Snap(all)) && DivideSpells(pl, pr, t, t0)
      requires Distinct(t0) && n !in Nodes(t0) && all == {n} + Nodes(t0)
      modifies this`enqcmps, all`left, all`right, all`up
      ensures var (pl', pr', t') := DivideStep(pl, pr, t, key);
              && left' == Tip(pl', n) && right' == Tip(pr', n) && next' == Root(t')
              && (t'.Bin? ==> (lower' <==> t'.elem.key < key))
              && Dividing(n, pl', pr', t', Snap(all)) && DivideSpells(pl', pr', t', t0)
              && (if lower then left'.right == next' else right'.left == next')
              && enqcmps + SplitCmps(t', key) == old(enqcmps) + SplitCmps(t, key) - (if t'.Bin? then 0 else 1)
              && Zip(Split(t', key).0, pl') == Zip(Split(t, key).0, pl)
              && Zip(Split(t', key).1, pr') == Zip(Split(t, key).1, pr)
      ensures n.key == old(n.key) && n.up == old(n.up)
    {
      ghost var h := Snap(all);
      ReadyForRound(n, pl, pr, t, key, h);
      left', right' := left, right;
      if lower {
        left', next', lower' := RoundLower(left, next, key, all);
        RoundPointers(n, pl, pr, t, key, h, left', next', lower');
      } else {
        right', next', lower' := RoundUpper(right, next, key, all);
        RoundPointers(n, pl, pr, t, key, h, right', next', lower');
      }
      DividingRound(n, pl, pr, t, key, t0, h, Snap(all));
      DivideSplits(pl, pr, t, key);
    }

    /** The loops of _sp_enq with their gotos: src/splay.c:503-586.  `side`
        tells whose hole is known to be closed at the end. */
    method DivideLoop(n: Node, first: Node, ghost t0: Tree, ghost all: set<Node>)
      returns (left: Node, right: Node, side: bool, ghost pl: Path, ghost pr: Path)
      requires t0.Bin? && first == t0.elem.node && Rep(t0, Snap(all))
      requires Distinct(t0) && n !in Nodes(t0) && all == {n} + Nodes(t0)
      modifies this`enqcmps, all`left, all`right, all`up
      ensures Dividing(n, pl, pr, Leaf, Snap(all)) && left == Tip(pl, n) && right == Tip(pr, n)
      ensures if side then left.right == null else right.left == null
      ensures Split(t0, n.key) == (Zip(Leaf, pl), Zip(Leaf, pr))
      ensures n.up == old(n.up) && enqcmps == old(enqcmps) + SplitCmps(t0, n.key)
    {
      hide *;
      var key := n.key;
      var next: Node? := first;
      left, right := n, n;
      pl, pr := Top, Top;
      ghost var t := t0;
      DivideStart(n, t0, key, Snap(all));
      SnapKeys(all);
      enqcmps := enqcmps + 1;
      var lower := first.key < key;
      side := true;
      while next != null
        invariant left == Tip(pl, n) && right == Tip(pr, n) && next == Root(t)
        invariant Dividing(n, pl, pr, t, Snap(all)) && DivideSpells(pl, pr, t, t0)
        invariant n.key == key && n.up == old(n.up)
        invariant t.Bin? ==> (lower <==> t.elem.key < key)
        invariant t.Leaf? ==> (if side then left.right == null else right.left == null)
        invariant Zip(Split(t, key).0, pl) == Split(t0, key).0 && Zip(Split(t, key).1, pr) == Split(t0, key).1
        invariant enqcmps + SplitCmps(t, key) == old(enqcmps) + SplitCmps(t0, key) + (if t.Bin? then 1 else 0)
        decreases Size(t)
      {
        RootOf(t);
        ghost var s := DivideStep(pl, pr, t, key);
        side := lower;
        left, right, next, lower := OneRound(left, right, next, lower, key, n, pl, pr, t, t0, all);
        pl, pr, t := s.0, s.1, s.2;
        RootOf(t);
      }
      RootOf(t);
      SplitLeaf(key);
    }

    static lemma RootOf(t: Tree)
      ensures Root(t) == if t.Bin? then t.elem.node else null
    {
    }

    static lemma SplitLeaf(key: Key)
      ensures Split(Leaf, key) == (Leaf, Leaf) && SplitCmps(Leaf, key) == 0
    {
    }

    static lemma SnapKeys(all: set<Node>)
      ensures Snap(all).Keys == all && forall x :: x in Snap(all) ==> Snap(all)[x].key == x.key
    {
    }

    /** Before the first round nothing is divided. */
    static lemma DivideStart(n: Node, t0: Tree, key: Key, h: Heap)
      requires t0.Bin? && Rep(t0, h) && Distinct(t0) && n !in Nodes(t0) && h.Keys == {n} + Nodes(t0)
      ensures Dividing(n, Top, Top, t0, h) && DivideSpells(Top, Top, t0, t0) && Tip(Top, n) == n
      ensures Root(t0) == t0.elem.node && t0.elem.node in h && h[t0.elem.node].key == t0.elem.key
      ensures Zip(Split(t0, key).0, Top) == Split(t0, key).0 && Zip(Split(t0, key).1, Top) == Split(t0, key).1
    {
      hide InOrder;
    }

    /** The whole split, n's children still reversed: src/splay.c:499-588. */
    method Divide(n: Node, first: Node, ghost t0: Tree, ghost all: set<Node>)
      requires t0.Bin? && first == t0.elem.node && Rep(t0, Snap(all))
      requires Distinct(t0) && n !in Nodes(t0) && all == {n} + Nodes(t0)
      modifies this`enqcmps, all`left, all`right, all`up
      ensures var (l, r) := Split(t0, n.key);
              && Rep(l, Snap(all)) && Rep(r, Snap(all)) && n.right == Root(l) && n.left == Root(r)
              && (l.Bin? ==> l.elem.node in all && l.elem.node.up == n)
              && (r.Bin? ==> r.elem.node in all && r.elem.node.up == n)
      ensures n.up == old(n.up)
      ensures enqcmps == old(enqcmps) + SplitCmps(t0, n.key)
    {
      var left, right, side;
      ghost var pl, pr;
      left, right, side, pl, pr := DivideLoop(n, first, t0, all);
      CloseHoles(side, left, right, n, pl, pr, all);
    }

    /** The assignment before each `goto done`. */
    method CloseHoles(side: bool, left: Node, right: Node, ghost n: Node, ghost pl: Path, ghost pr: Path,
            ghost all: set<Node>)
      requires Dividing(n, pl, pr, Leaf, Snap(all)) && left == Tip(pl, n) && right == Tip(pr, n)
      requires if side then left.right == null else right.left == null
      modifies all`left, all`right
      ensures var l, r := Zip(Leaf, pl), Zip(Leaf, pr);
              && Rep(l, Snap(all)) && Rep(r, Snap(all)) && n.right == Root(l) && n.left == Root(r)
              && (l.Bin? ==> l.elem.node in all && l.elem.node.up == n)
              && (r.Bin? ==> r.elem.node in all && r.elem.node.up == n)
    {
      ghost var h := Snap(all);
      if side {
        right.left := null;
      } else {
        left.right := null;
      }
      SpinesKept(n, pl, pr, Leaf, !side, h, Snap(all));
      SpinesClosed(n, pl, pr, Snap(all));
    }

    /** _sp_enq on the links alone: src/splay.c:493-593. */
    method EnqLinks(n: Node, next: Node?, ghost t0: Tree, ghost all: set<Node>)
      requires next == Root(t0) && Rep(t0, Snap(Nodes(t0)))
      requires Distinct(t0) && n !in Nodes(t0) && all == {n} + Nodes(t0)
      modifies this`enqcmps, all`left, all`right, all`up
      ensures Rep(Enqueued(t0, n.key, n), Snap(all))
      ensures n.up == old(n.up) && enqcmps == old(enqcmps) + SplitCmps(t0, n.key)
    {
      RepKept(t0, Snap(Nodes(t0)), Snap(all));
      if next == null {
        n.left := null;
        n.right := null;
      } else {
        Divide(n, next, t0, all);
        SplitNodes(t0, n.key);
        Reverse(n, t0, all);
      }
    }

    /** _sp_enq: n, which must not be in the tree, becomes its root. */
    method Enq(n: Node)
      requires Linked() && n !in Nodes(shape) && !HasKey(InOrder(shape), n.key)
      modifies this`root, this`shape, this`enqs, this`enqcmps, n`left, n`right, n`up
      modifies Nodes(shape)`left, Nodes(shape)`right, Nodes(shape)`up
      ensures Linked() && root == n
      ensures shape == Installed(old(shape), n.key, n)
      ensures Nodes(shape) == old(Nodes(shape)) + {n}
      ensures enqs == old(enqs) + 1 && enqcmps == old(enqcmps) + SplitCmps(old(shape), n.key)
      ensures enqcmps == old(enqcmps) + Depth(Seek(old(shape), n.key, Top).1)
    {
      hide *;
      ghost var t0 := shape;
      LinkedParts();
      RootOf(t0);
      SplitDepth(t0, n.key);
      enqs := enqs + 1;
      n.up := null;
      var next := root;
      root := n;
      EnqLinks(n, next, t0, {n} + Nodes(t0));
      InstalledShape(t0, n.key, n);
      shape := Enqueued(t0, n.key, n);
      RootEnqueued(t0, n);
      LinkedMade();
    }

    static lemma RootEnqueued(t: Tree, n: Node)
      ensures Root(Enqueued(t, n.key, n)) == n
    {
    }

    /** _sp_enq at label `done`: src/splay.c:590-592. */
    method Reverse(n: Node, ghost t0: Tree, ghost all: set<Node>)
      requires var (l, r) := Split(t0, n.key);
               && Rep(l, Snap(all)) && Rep(r, Snap(all)) && n.right == Root(l) && n.left == Root(r)
               && (l.Bin? ==> l.elem.node in all && l.elem.node.up == n)
               && (r.Bin? ==> r.elem.node in all && r.elem.node.up == n)
               && n in all && n !in Nodes(l) && n !in Nodes(r) && Distinct(l) && Distinct(r)
      modifies n`left, n`right
      ensures var (l, r) := Split(t0, n.key); Rep(Bin(l, Elem(n, n.key), r), Snap(all))
    {
      ghost var h := Snap(all);
      var temp := n.left;
      n.left := n.right;
      n.right := temp;
      ghost var lr := Split(t0, n.key);
      RepInHeap(lr.0, h);
      RepInHeap(lr.1, h);
      RepKept(lr.0, h, Snap(all));
      RepKept(lr.1, h, Snap(all));
    }

    /** The search loop of sp_lookup: src/splay.c:127-134. */
    method Search(key: Key) returns (n: Node?)
      requires Linked()
      modifies this`lookups, this`lkpcmps
      ensures Linked() && n == Root(Seek(shape, key, Top).0)
      ensures lookups == old(lookups) + 1 && lkpcmps == old(lkpcmps) + LookupCmps(shape, key)
    {
      n := root;
      lkpcmps := lkpcmps + 1;
      var c := lkpcmps;
      lookups := lookups + 1;
      ghost var t, p := shape, Top;
      while n != null && key != n.key
        invariant n == Root(t) && Rep(t, Snap(Nodes(shape))) && Zip(t, p) == shape
        invariant Seek(t, key, p) == Seek(shape, key, Top)
        invariant c + SeekSteps(t, key) == old(lkpcmps) + LookupCmps(shape, key)
        decreases t
      {
        c := c + 1;
        p, t := if key < n.key then Lefter(t.elem, t.right, p) else Righter(t.elem, t.left, p),
                if key < n.key then t.left else t.right;
        n := if key < n.key then n.left else n.right;
      }
      lkpcmps := c;
      assert Snap(Nodes(shape)) == old(Snap(Nodes(shape)));
    }

    /** sp_lookup: the node with the key, moved to the root, or null. */
    method Lookup(key: Key) returns (n: Node?)
      requires Valid()
      modifies this`root, this`shape, this`lookups, this`lkpcmps, this`splays, this`splayloops
      modifies Nodes(shape)`left, Nodes(shape)`right, Nodes(shape)`up
      ensures Valid() && shape == LookedUp(old(shape), key)
      ensures n != null <==> HasKey(InOrder(old(shape)), key)
      ensures n != null ==> n == root && n.key == key
      ensures InOrder(shape) == old(InOrder(shape)) && Nodes(shape) == old(Nodes(shape))
      ensures lookups == old(lookups) + 1
      ensures lkpcmps == old(lkpcmps) + LookupCmps(old(shape), key)
      ensures lkpcmps == old(lkpcmps) + 1 + Depth(Seek(old(shape), key, Top).1)
      ensures n != null ==> n in old(Nodes(shape)) && lkpcmps == old(lkpcmps) + 1 + Depth(PathTo(old(shape), n, Top))
      ensures splayloops == old(splayloops) + LookupLoops(old(shape), key)
    {
      ghost var t := shape;
      n := Search(key);
      SeekFinds(t, key, Top);
      SeekDepth(t, key, Top);
      if n != null {
        SeekIsPathTo(t, key);
        Splay(n);
        SplayedShape(t, n);
      }
    }

    /** Take the node `gone` out from below `above`: src/splay.c:637-639 and 647-649. */
    static method Unlink(above: Node, gone: Node, ghost all: set<Node>)
      requires {above, gone} <= all && above != gone && gone.right != above
              && (gone.right != null ==> gone.right in all)
      modifies all`left, all`up
      ensures Unlinked(above, gone, old(gone.right), old(Snap(all)), Snap(all))
    {
      above.left := gone.right;
      if gone.right != null {
        gone.right.up := above;
      }
    }

    /** The rotation of _sp_deq: src/splay.c:654-660. */
    static method Turn(next: Node, left: Node, farleft: Node, ghost all: set<Node>)
      requires {next, left, farleft} <= all && next != left && next != farleft && left != farleft
      requires farleft.right != null ==> farleft.right in all && farleft.right !in {next, left, farleft}
      modifies all`left, all`right, all`up
      ensures DeqTurned(next, left, farleft, old(farleft.right), old(Snap(all)), Snap(all))
    {
      next.left := farleft;
      farleft.up := next;
      left.left := farleft.right;
      if farleft.right != null {
        farleft.right.up := left;
      }
      farleft.right := left;
      left.up := farleft;
    }

    /** The two exits of the loop of _sp_deq: src/splay.c:635-651. */
    static method DeqEnd(next: Node, left: Node, farleft: Node?, ghost p: Path, ghost t: Tree, ghost t0: Tree,
            ghost all: set<Node>)
      returns (deq: Node)
      requires Descending(p, t, t0, Snap(all)) && next == t.elem.node && left == t.left.elem.node
      requires farleft == Root(t.left.left) && (t.left.left.Bin? ==> t.left.left.left.Leaf?)
      modifies all`left, all`right, all`up
      ensures deq == DeqLeft(t).0.node && Rep(Zip(DeqLeft(t).1, p), Snap(all))
    {
      ghost var h := Snap(all);
      DescendingPointers(p, t, t0, h);
      if farleft == null {
        Unlink(next, left, all);
        DescendingEndNear(p, t, t0, h, Snap(all));
        return left;
      } else {
        Unlink(left, farleft, all);
        DescendingEndFar(p, t, t0, h, Snap(all));
        return farleft;
      }
    }

    /** The loop of _sp_deq: src/splay.c:632-665.  The link that its subtree
        hangs from stays as it is. */
    static method DeqLoop(first: Node, second: Node, ghost t0: Tree, ghost all: set<Node>) returns (deq: Node)
      requires t0.Bin? && t0.left.Bin? && first == t0.elem.node && second == t0.left.elem.node
      requires Distinct(t0) && Rep(t0, Snap(all)) && all == Nodes(t0)
      modifies all`left, all`right, all`up
      ensures deq == DeqLeft(t0).0.node && Rep(DeqLeft(t0).1, Snap(all))
    {
      var next, left := first, second;
      ghost var p, t := Top, t0;
      while true
        invariant Descending(p, t, t0, Snap(all)) && next == t.elem.node && left == t.left.elem.node
        invariant DeqLeft(t).0 == DeqLeft(t0).0 && Zip(DeqLeft(t).1, p) == DeqLeft(t0).1
        decreases t.left
      {
        ghost var h := Snap(all);
        DescendingPointers(p, t, t0, h);
        var farleft := left.left;
        if farleft == null || farleft.left == null {
          deq := DeqEnd(next, left, farleft, p, t, t0, all);
          return;
        }
        var farfarleft := farleft.left;
        Turn(next, left, farleft, all);
        DescendingTurn(p, t, t0, h, Snap(all));
        p, t := Lefter(t.elem, t.right, p), DeqRotated(t);
        next := farleft;
        left := farfarleft;
      }
    }

    /** _sp_deq on n's right link: the least node leaves n's right subtree. */
    static method DeqRight(n: Node, ghost t: Tree) returns (deq: Node?)
      requires n !in Nodes(t) && n.right == Root(t) && Distinct(t) && Rep(t, Snap(Nodes(t)))
      modifies n`right, Nodes(t)`left, Nodes(t)`right, Nodes(t)`up
      ensures t.Leaf? ==> deq == null && n.right == null
      ensures t.Bin? ==> deq == Deq(t).0.node && n.right == Root(Deq(t).1) && Rep(Deq(t).1, Snap(Nodes(t)))
      ensures t.Bin? && t.left.Bin? ==> Spine(Deq(t).1) == (Spine(t) + 1) / 2 + Spine(Least(t).right)
    {
      if n.right == null {
        return null;
      }
      var next := n.right;
      var left := next.left;
      ghost var all := Nodes(t);
      if left == null {
        ghost var h := Snap(all);
        deq := next;
        n.right := next.right;
        if n.right != null {
          n.right.up := null;
        }
        RepInHeap(t.right, h);
        RepKept(t.right, h, Snap(all));
        return;
      }
      DeqLeftRoot(t);
      DeqHalves(t);
      deq := DeqLoop(next, left, t, all);
    }

    /** The least node of the right subtree takes n's place: src/splay.c:389-396. */
    method LiftLeast(n: Node, x: Node, ghost l: Tree, ghost r: Tree, ghost all: set<Node>)
      requires root == n && n.left == Root(l) && n.right == Root(r) && Rep(l, Snap(all)) && Rep(r, Snap(all))
      requires Distinct(l) && Distinct(r) && {n, x} <= all && n != x
      requires n !in Nodes(l) + Nodes(r) && x !in Nodes(l) + Nodes(r) && Nodes(l) !! Nodes(r)
      modifies this`root, all`left, all`right, all`up
      ensures root == x && x.up == null && Rep(Bin(l, Elem(x, x.key), r), Snap(all))
    {
      ghost var h := Snap(all);
      RepInHeap(l, h);
      RepInHeap(r, h);
      LiftPointers(n, x, all);
      RepKept(l, h, Snap(all));
      RepKept(r, h, Snap(all));
    }

    method LiftPointers(n: Node, x: Node, ghost all: set<Node>)
      requires root == n && {n, x} <= all && n != x
      requires n.left != null ==> n.left in all && n.left !in {n, x} && n.left != n.right
      requires n.right != null ==> n.right in all && n.right !in {n, x}
      modifies this`root, all`left, all`right, all`up
      ensures root == x
      ensures var h, h' := old(Snap(all)), Snap(all);
              && h'[x] == Links(h[n].left, h[n].right, null, h[x].key)
              && (forall y :: y in all && y != x && y != h[n].left && y != h[n].right ==> h'[y] == h[y])
              && (h[n].left != null ==> h'[h[n].left] == h[h[n].left].(up := x))
              && (h[n].right != null ==> h'[h[n].right] == h[h[n].right].(up := x))
    {
      x.up := null;
      x.left := root.left;
      x.right := root.right;
      if x.left != null {
        x.left.up := x;
      }
      if x.right != null {
        x.right.up := x;
      }
      root := x;
    }

    /** sp_delete between the splay and the free: src/splay.c:384-397. */
    method DeleteRoot(n: Node, ghost t: Tree)
      requires t.Bin? && root == n == t.elem.node && n.up == null && Distinct(t) && Rep(t, Snap(Nodes(t)))
      modifies this`root, Nodes(t)`left, Nodes(t)`right, Nodes(t)`up
      ensures root == Root(Deleted(t)) && (root != null ==> root.up == null)
      ensures Rep(Deleted(t), Snap(Nodes(t)))
    {
      ghost var h0, r := Snap(Nodes(t)), t.right;
      RepKept(r, h0, Snap(Nodes(r)));
      DeletedNodes(t);
      if r.Bin? { LeastKey(r, h0); }
      var x := DeqRight(n, r);
      assert Rep(t.left, Snap(Nodes(t))) by { RepKept(t.left, h0, Snap(Nodes(t))); }
      if x == null {
        LiftLeft(n, t.left, Nodes(t));
      } else {
        assert Rep(Deq(r).1, Snap(Nodes(t))) by { RepKept(Deq(r).1, Snap(Nodes(r)), Snap(Nodes(t))); }
        LiftLeast(n, x, t.left, Deq(r).1, Nodes(t));
      }
    }

    /** With no right subtree, the left one is all that stays: src/splay.c:386-387. */
    method LiftLeft(n: Node, ghost l: Tree, ghost all: set<Node>)
      requires root == n && n.left == Root(l) && Rep(l, Snap(all)) && Distinct(l)
      modifies this`root, all`up
      ensures root == Root(l) && (root != null ==> root.up == null) && Rep(l, Snap(all))
    {
      ghost var h := Snap(all);
      RepInHeap(l, h);
      root := root.left;
      if root != null {
        root.up := null;
      }
      RepKept(l, h, Snap(all));
    }

    /** A valid tree beside a valid free list that shares no node with it. */
    ghost predicate ValidWith(pool: Pool)
      reads this, Nodes(shape)`left, Nodes(shape)`right, Nodes(shape)`up, Nodes(shape)`key, pool, pool.free`up
    {
      Valid() && pool.Valid() && forall x :: x in pool.free ==> x !in Nodes(shape)
    }

    /** sp_delete on the links: src/splay.c:384-394. */
    method TakeOut(n: Node)
      requires Linked() && n in Nodes(shape)
      modifies this`root, this`shape, this`splays, this`splayloops
      modifies Nodes(shape)`left, Nodes(shape)`right, Nodes(shape)`up
      ensures Linked() && shape == Removed(old(shape), old(n.key)) && HasKey(InOrder(old(shape)), old(n.key))
      ensures Nodes(shape) == old(Nodes(shape)) - {n} && Size(shape) == Size(old(shape)) - 1
      ensures splays == old(splays) + 1 && splayloops == old(splayloops) + LookupLoops(old(shape), old(n.key))
    {
      hide *;
      ghost var t0, key, all := shape, n.key, Nodes(shape);
      LinkedParts();
      KeyOfNode(t0, n, Snap(all));
      SnapKeys(all);
      SoughtShape(t0, n, key);
      LoopsOf(t0, key);
      Splay(n);
      LinkedParts();
      ghost var t := shape;
      RootIs(n);
      DeleteRoot(n, t);
      shape := Deleted(t);
      DeletedNodes(t);
      RepNarrowed(shape, all);
      LinkedMade();
    }

    lemma LinkedParts()
      requires Linked()
      ensures Rep(shape, Snap(Nodes(shape))) && Distinct(shape) && Ordered(shape) && root == Root(shape)
      ensures root != null ==> root.up == null
    {
      hide Rep, Distinct, Ordered, Root;
    }

    lemma LinkedMade()
      requires Rep(shape, Snap(Nodes(shape))) && Distinct(shape) && Ordered(shape) && root == Root(shape)
      requires root != null ==> root.up == null
      ensures Linked()
    {
      hide Rep, Distinct, Ordered, Root;
    }

    lemma RootIs(n: Node)
      requires root == n && root == Root(shape)
      ensures shape.Bin? && shape.elem.node == n
    {
    }

    static lemma LoopsOf(t: Tree, key: Key)
      ensures var s := Seek(t, key, Top); LookupLoops(t, key) == if s.0.Bin? then SplayLoops(s.1) else 0
    {
    }

    /** sp_delete but for the free list. */
    method Detach(n: Node, ghost pool: Pool)
      requires ValidWith(pool) && n in Nodes(shape)
      modifies this`root, this`shape, this`splays, this`splayloops, this`eltscnt
      modifies Nodes(shape)`left, Nodes(shape)`right, Nodes(shape)`up
      ensures ValidWith(pool) && Nodes(shape) == old(Nodes(shape)) - {n} && n !in pool.free
      ensures shape == Removed(old(shape), old(n.key)) && HasKey(InOrder(old(shape)), old(n.key))
      ensures eltscnt == old(eltscnt) - 1
      ensures splays == old(splays) + 1 && splayloops == old(splayloops) + LookupLoops(old(shape), old(n.key))
    {
      hide Removed, LookupLoops, HasKey, InOrder, Rep, Distinct, Ordered, SplayPool.Chain;
      TakeOut(n);
      eltscnt := eltscnt - 1;
      assert pool.Valid() == old(pool.Valid());
    }

    /** sp_delete: n, which must be in the tree, leaves it for the free list. */
    method Delete(n: Node, pool: Pool)
      requires ValidWith(pool) && n in Nodes(shape)
      modifies this`root, this`shape, this`splays, this`splayloops, this`eltscnt
      modifies Nodes(shape)`left, Nodes(shape)`right, Nodes(shape)`up
      modifies pool`freeList, pool`spEntries, pool`free
      ensures ValidWith(pool)
      ensures shape == Removed(old(shape), old(n.key)) && Nodes(shape) == old(Nodes(shape)) - {n}
      ensures pool.free == [n] + old(pool.free) && pool.spAllocated == old(pool.spAllocated)
      ensures pool.spEntries == old(pool.spEntries) - 1 && eltscnt == old(eltscnt) - 1
      ensures splays == old(splays) + 1 && splayloops == old(splayloops) + LookupLoops(old(shape), old(n.key))
    {
      Detach(n, pool);
      Release(n, pool);
    }

    /** The taken-out node goes to the free list; the tree does not notice. */
    method Release(n: Node, pool: Pool)
      requires ValidWith(pool) && n !in Nodes(shape) && n !in pool.free
      modifies pool`freeList, pool`spEntries, pool`free, n`up
      ensures ValidWith(pool)
      ensures pool.free == [n] + old(pool.free) && pool.spAllocated == old(pool.spAllocated)
      ensures pool.spEntries == old(pool.spEntries) - 1
    {
      ghost var h := Snap(Nodes(shape));
      pool.FreeBlk(n);
      assert Snap(Nodes(shape)) == h;
    }

    /** sp_install: the node with the key, created if there is none, as root. */
    method Install(key: Key, pool: Pool) returns (n: Node)
      requires ValidWith(pool)
      modifies this`root, this`shape, this`eltscnt, this`lookups, this`lkpcmps, this`enqs, this`enqcmps, this`splays,
              this`splayloops
      modifies Nodes(shape)`left, Nodes(shape)`right, Nodes(shape)`up
      modifies pool`freeList, pool`spAllocated, pool`spEntries, pool`free
      modifies pool.free`left, pool.free`right, pool.free`up, pool.free`key
      ensures ValidWith(pool)
      ensures n == root && n.key == key && shape == Installed(old(shape), key, n)
      ensures HasKey(InOrder(old(shape)), key) ==>
        n in old(Nodes(shape)) && Nodes(shape) == old(Nodes(shape)) && pool.free == old(pool.free)
      ensures !HasKey(InOrder(old(shape)), key) ==>
        n !in old(Nodes(shape)) && Nodes(shape) == {n} + old(Nodes(shape)) && (fresh(n) || n in old(pool.free))
      ensures forall x :: x in pool.free ==> x in old(pool.free) || fresh(x)
      ensures forall x :: x in old(pool.free) ==> x == n || x in pool.free
      ensures pool.spEntries == old(pool.spEntries) + (if HasKey(InOrder(old(shape)), key) then 0 else 1)
      ensures pool.spEntries - eltscnt == old(pool.spEntries - eltscnt)
      ensures lookups == old(lookups) + 1 && lkpcmps == old(lkpcmps) + LookupCmps(old(shape), key)
      ensures splayloops == old(splayloops) + LookupLoops(old(shape), key)
      ensures enqcmps == old(enqcmps) + (if HasKey(InOrder(old(shape)), key) then 0 else SplitCmps(old(shape), key))
      ensures lkpcmps == old(lkpcmps) + 1 + Depth(Seek(old(shape), key, Top).1)
      ensures !HasKey(InOrder(old(shape)), key) ==> enqcmps == old(enqcmps) + Depth(Seek(old(shape), key, Top).1)
    {
      hide *;
      ghost var t := shape;
      FreeOutside(pool);
      ValidParts();
      var found := Lookup(key);
      assert pool.Valid() == old(pool.Valid());
      BesidePool(pool);
      if found == null {
        LooksUpAbsent(t, key);
        n := AddNew(key, pool);
      } else {
        InstallsPresent(t, key, found);
        ValidParts();
        RootInTree();
        n := found;
      }
    }

    static lemma LooksUpAbsent(t: Tree, key: Key)
      requires Ordered(t) && !HasKey(InOrder(t), key)
      ensures LookedUp(t, key) == t
    {
      SeekFinds(t, key, Top);
    }

    static lemma InstallsPresent(t: Tree, key: Key, n: Node)
      requires Ordered(t) && HasKey(InOrder(t), key)
      ensures Installed(t, key, n) == LookedUp(t, key)
    {
      SeekFinds(t, key, Top);
    }

    lemma RootInTree()
      requires Linked() && root != null
      ensures root in Nodes(shape)
    {
    }

    /** The part of sp_install for an absent key: src/splay.c:156-162. */
    method AddNew(key: Key, pool: Pool) returns (n: Node)
      requires ValidWith(pool) && !HasKey(InOrder(shape), key)
      modifies this`root, this`shape, this`enqs, this`enqcmps, this`eltscnt
      modifies Nodes(shape)`left, Nodes(shape)`right, Nodes(shape)`up, pool`freeList, pool`spAllocated,
              pool`spEntries, pool`free
      modifies pool.free`left, pool.free`right, pool.free`up, pool.free`key
      ensures ValidWith(pool)
      ensures n == root && n.key == key && shape == Installed(old(shape), key, n)
      ensures n !in old(Nodes(shape)) && Nodes(shape) == {n} + old(Nodes(shape))
      ensures fresh(n) || n in old(pool.free)
      ensures forall x :: x in pool.free ==> x in old(pool.free) || fresh(x)
      ensures forall x :: x in old(pool.free) ==> x == n || x in pool.free
      ensures pool.spEntries == old(pool.spEntries) + 1 && eltscnt == old(eltscnt) + 1
      ensures enqcmps == old(enqcmps) + SplitCmps(old(shape), key)
      ensures enqcmps == old(enqcmps) + Depth(Seek(old(shape), key, Top).1)
    {
      hide *;
      n := TakeNode(key, pool);
      FreeOutside(pool);
      ValidParts();
      label Taken:
      eltscnt := eltscnt + 1;
      ghost var t := shape;
      Enq(n);
      InstalledShape(t, key, n);
      assert pool.Valid() == old@Taken(pool.Valid());
      ValidMade();
      BesidePool(pool);
    }

    lemma ValidParts()
      requires Valid()
      ensures Linked() && Ordered(shape) && Distinct(shape) && eltscnt == Size(shape)
    {
      hide Rep, Ordered, Distinct, Size;
    }

    lemma ValidMade()
      requires Linked() && eltscnt == Size(shape)
      ensures Valid()
    {
      hide Linked, Size;
    }

    /** A node off the free list, initialised: src/splay.c:156-160. */
    method TakeNode(key: Key, pool: Pool) returns (n: Node)
      requires ValidWith(pool)
      modifies pool`freeList, pool`spAllocated, pool`spEntries, pool`free
      modifies pool.free`left, pool.free`right, pool.free`up, pool.free`key
      ensures ValidWith(pool) && n.key == key && n !in Nodes(shape) && n !in pool.free
      ensures n.left == null && n.right == null && n.up == null
      ensures Nodes(shape) == old(Nodes(shape))
      ensures fresh(n) || n in old(pool.free)
      ensures forall x :: x in pool.free ==> x in old(pool.free) || fresh(x)
      ensures forall x :: x in old(pool.free) ==> x == n || x in pool.free
      ensures pool.spEntries == old(pool.spEntries) + 1
    {
      hide *;
      NodesAllocated(shape);
      FreeOutside(pool);
      n := pool.AllocBlk();
      label taken:
      Blank(n, key);
      assert Valid() == old(Valid()) && pool.Valid() == old@taken(pool.Valid());
      BesidePool(pool);
    }

    /** The four fields of a new node. */
    static method Blank(n: Node, key: Key)
      modifies n`left, n`right, n`up, n`key
      ensures n.key == key && n.left == null && n.right == null && n.up == null
    {
      n.key := key;
      n.left := null;
      n.right := null;
      n.up := null;
    }

    lemma FreeOutside(pool: Pool)
      requires ValidWith(pool)
      ensures Valid() && pool.Valid() && forall x :: x in pool.free ==> x !in Nodes(shape)
    {
      hide Pool.Valid;
    }

    lemma BesidePool(pool: Pool)
      requires Valid() && pool.Valid() && forall x :: x in pool.free ==> x !in Nodes(shape)
      ensures ValidWith(pool)
    {
      hide Pool.Valid;
    }

    /** sp_fhead: the leftmost node. */
    method FHead() returns (x: Node?)
      requires Linked()
      ensures x == if shape.Leaf? then null else InOrder(shape)[0].node
    {
      x := root;
      if x != null {
        ghost var t, h := shape, Snap(Nodes(shape));
        while x.left != null
          invariant t.Bin? && x == t.elem.node && Rep(t, h) && Nodes(t) <= Nodes(shape)
          invariant InOrder(t)[0] == InOrder(shape)[0]
          decreases t
        {
          assert Rep(t.left, h);
          t := t.left;
          x := x.left;
        }
      }
    }

    /** sp_fnext: the node of the in-order successor, or null at the end. */
    method FNext(n: Node) returns (next: Node?)
      requires Linked() && n in Nodes(shape)
      ensures next == Successor(shape, n)
    {
      ghost var h, s, p := Snap(Nodes(shape)), SubtreeAt(shape, n), PathTo(shape, n, Top);
      StartHalfway(shape, n, h);
      var x := n.right;
      if x != null {
        ghost var t := s.right;
        PathToZip(shape, n, Top);
        ZipNodes(s, p);
        while x.left != null
          invariant t.Bin? && x == t.elem.node && Rep(t, h) && Nodes(t) <= Nodes(shape)
          invariant InOrder(t)[0] == InOrder(s.right)[0]
          decreases t
        {
          assert Rep(t.left, h);
          t := t.left;
          x := x.left;
        }
        next := x;
      } else {
        x := n.up;
        next := null;
        var below: Node := n;
        ghost var q := p;
        while x != null
          invariant x == PathTop(q) && RepPath(q, below, h) && PathNodes(q) <= Nodes(shape) && DistinctPath(q)
          invariant below !in PathNodes(q)
          invariant next == null && After(q) == After(p)
          decreases q
        {
          Bends(q, below, h);
          if x.left == below {
            next := x;
            return;
          }
          below := x;
          x := below.up;
          q := q.up;
        }
      }
    }

    /** sp_scan: the nodes its callback is called on, in the order of the calls. */
    method Scan(n: Node?) returns (visited: seq<Node>)
      requires Linked() && (n != null ==> n in Nodes(shape))
      ensures ScanStart(shape, n) <= |InOrder(shape)| && visited == NodeSeq(InOrder(shape))[ScanStart(shape, n)..]
    {
      NodesAllocated(shape);
      ScanStarts(shape, n);
      var x: Node?;
      if n != null {
        x := n;
      } else {
        x := FHead();
      }
      visited := ScanLoop(x, ScanStart(shape, n), NodeSeq(InOrder(shape)));
    }

    /** The loop of sp_scan: src/splay.c:202-205. */
    method ScanLoop(first: Node?, ghost start: nat, ghost nodes: seq<Node>) returns (visited: seq<Node>)
      requires Linked() && start <= |nodes| == |InOrder(shape)|
      requires forall i :: 0 <= i < |nodes| ==> nodes[i] == InOrder(shape)[i].node
      requires first == if start < |nodes| then nodes[start] else null
      ensures visited == nodes[start..]
    {
      NodesAllocated(shape);
      var x := first;
      visited := [];
      ghost var i := start;
      while x != null
        invariant start <= i <= |nodes| && Linked()
        invariant x == if i < |nodes| then nodes[i] else null
        invariant visited == nodes[start..i]
        decreases |nodes| - i
      {
        SuccessorAt(shape, i);
        var nextx := FNext(x);
        visited := visited + [x];
        SliceStep(nodes, start, i);
        i := i + 1;
        x := nextx;
      }
    }

    /** _sp_chop: right subtree first, then left, then the node itself. */
    static method Chop(n: Node, ghost t: Tree, pool: Pool)
      requires t.Bin? && n == t.elem.node && DownLinks(t) && Distinct(t)
      requires pool.Valid() && forall x :: x in pool.free ==> x !in Nodes(t)
      modifies pool, Nodes(t)`up
      ensures pool.Valid() && pool.free == ChopOrder(t) + old(pool.free) && pool.spAllocated == old(pool.spAllocated)
      decreases t
    {
      hide *;
      NodesAllocated(t);
      ChopParts(t);
      ghost var free0 := pool.free;
      if n.right != null {
        Chop(n.right, t.right, pool);
      }
      ChoppedApart(t.right, free0, t.left);
      if n.left != null {
        Chop(n.left, t.left, pool);
      }
      ChoppedOther(t, free0);
      pool.FreeBlk(n);
      Regroup3([n], ChopOrder(t.left), ChopOrder(t.right), free0);
    }

    static lemma ChopParts(t: Tree)
      requires t.Bin? && DownLinks(t) && Distinct(t)
      ensures var n, l, r := t.elem.node, t.left, t.right;
              && n.left == Root(l) && n.right == Root(r) && (Root(l) == null <==> l.Leaf?)
                      && (Root(r) == null <==> r.Leaf?)
              && DownLinks(l) && DownLinks(r) && Distinct(l) && Distinct(r)
              && Nodes(t) == {n} + Nodes(l) + Nodes(r) && Nodes(l) !! Nodes(r)
              && (l.Bin? ==> Root(l) == l.elem.node) && (r.Bin? ==> Root(r) == r.elem.node)
              && ChopOrder(t) == [n] + ChopOrder(l) + ChopOrder(r)
              && (l.Leaf? ==> ChopOrder(l) == []) && (r.Leaf? ==> ChopOrder(r) == [])
    {
    }

    static lemma ChoppedOther(t: Tree, free: seq<Node>)
      requires t.Bin? && Distinct(t) && forall x :: x in free ==> x !in Nodes(t)
      ensures t.elem.node !in ChopOrder(t.left) + (ChopOrder(t.right) + free)
      ensures [] + (ChopOrder(t.right) + free) == ChopOrder(t.right) + free && [] + free == free
    {
      ChopNodes(t.right);
      ChopNodes(t.left);
    }

    /** The nodes in the tree or free. */
    ghost function Space(pool: Pool): set<Node>
      reads this, pool
    {
      Nodes(shape) + set n | n in pool.free
    }

    /** The three counters of key comparisons and splay rounds together. */
    ghost function Work(): int
      reads this
    {
      lkpcmps + splayloops + enqcmps
    }

    lemma WorkIs()
      ensures Work() == lkpcmps + splayloops + enqcmps
    {
    }

    lemma SpaceIs(pool: Pool)
      ensures Space(pool) == Nodes(shape) + set n | n in pool.free
    {
    }

    /** sp_lookup, as one call of a run. */
    method Finding(key: Key, pool: Pool) returns (n: Node?)
      requires ValidWith(pool)
      modifies this, Nodes(shape)
      ensures ValidWith(pool) && Nodes(shape) == old(Nodes(shape))
      ensures n != null <==> HasKey(InOrder(old(shape)), key)
      ensures n != null ==> n in Nodes(shape) && n.key == key
      ensures shape == RunTree(old(shape), [Find(key)]) && RunEnabled(old(shape), [Find(key)])
      ensures Work() == old(Work()) + RunCost(old(shape), [Find(key)]) && eltscnt == old(eltscnt)
      ensures HasKey(InOrder(shape), key) <==> HasKey(InOrder(old(shape)), key)
    {
      hide *;
      FreeOutside(pool);
      ValidParts();
      WorkIs();
      FindRun(shape, key);
      n := Lookup(key);
      assert pool.Valid() == old(pool.Valid());
      BesidePool(pool);
      ValidParts();
      WorkIs();
      if n != null { RootInTree(); }
    }

    /** sp_install, and whether the key was there before. */
    method Putting(key: Key, pool: Pool) returns (found: bool, ghost op: Op)
      requires ValidWith(pool)
      modifies this, pool, Space(pool)
      ensures ValidWith(pool) && found == HasKey(InOrder(old(shape)), key) && op.Install? && op.key == key
      ensures shape == RunTree(old(shape), [op]) && RunEnabled(old(shape), [op])
      ensures Work() == old(Work()) + RunCost(old(shape), [op])
      ensures pool.spEntries - eltscnt == old(pool.spEntries - eltscnt)
      ensures forall x :: x in Space(pool) ==> x in old(Space(pool)) || fresh(x)
    {
      hide *;
      FreeOutside(pool);
      ValidParts();
      WorkIs();
      SpaceIs(pool);
      ghost var t := shape;
      var before := eltscnt;
      var n := Install(key, pool);
      found := eltscnt == before;
      op := Op.Install(key, n);
      InstallRun(t, key, n);
      WorkIs();
      SpaceIs(pool);
    }

    /** sp_delete, as one call of a run. */
    method Dropping(n: Node, ghost key: Key, pool: Pool)
      requires ValidWith(pool) && n in Nodes(shape) && n.key == key && HasKey(InOrder(shape), key)
      modifies this, pool, Space(pool)
      ensures ValidWith(pool) && Space(pool) <= old(Space(pool))
      ensures shape == RunTree(old(shape), [Op.Delete(key)]) && RunEnabled(old(shape), [Op.Delete(key)])
      ensures Work() == old(Work()) + RunCost(old(shape), [Op.Delete(key)])
      ensures pool.spEntries - eltscnt == old(pool.spEntries - eltscnt)
    {
      hide *;
      SpaceIs(pool);
      WorkIs();
      DeleteRun(shape, key);
      Delete(n, pool);
      WorkIs();
      SpaceIs(pool);
    }

    /** One call of a run. */
    method ServeOne(c: Call, pool: Pool) returns (found: bool, ghost part: seq<Op>)
      requires ValidWith(pool)
      modifies this, pool, Space(pool)
      ensures ValidWith(pool) && found == HasKey(InOrder(old(shape)), c.key) && ComesTo(c, part, found)
      ensures shape == RunTree(old(shape), part) && RunEnabled(old(shape), part)
      ensures Work() == old(Work()) + RunCost(old(shape), part)
      ensures pool.spEntries - eltscnt == old(pool.spEntries - eltscnt)
      ensures forall x :: x in Space(pool) ==> x in old(Space(pool)) || fresh(x)
    {
      hide *;
      SpaceIs(pool);
      ghost var t := shape;
      if c.Put? {
        ghost var op;
        found, op := Putting(c.key, pool);
        part := [op];
      } else {
        var n := Finding(c.key, pool);
        found, part := n != null, [Find(c.key)];
        SpaceIs(pool);
        if c.Drop? && n != null {
          Dropping(n, c.key, pool);
          part := part + [Op.Delete(c.key)];
          RunJoined(t, [Find(c.key)], [Op.Delete(c.key)]);
        }
      }
      CallComesTo(c, part, found);
    }

    static lemma CallComesTo(c: Call, ops: seq<Op>, there: bool)
      requires if c.Put? then |ops| == 1 && ops[0].Install? && ops[0].key == c.key
               else ops == if c.Drop? && there then [Find(c.key)] + [Op.Delete(c.key)] else [Find(c.key)]
      ensures ComesTo(c, ops, there)
    {
    }

    /** Any calls, one after the other: what each found, what the tree is at the end, and what all of them added to
        the three counters; from an empty tree no more than what is promised for look-ups that hit, installations and
        deletions, and the comparisons of the look-ups that miss. */
    method Serve(calls: seq<Call>, pool: Pool) returns (found: seq<bool>, ghost parts: seq<seq<Op>>)
      requires ValidWith(pool)
      modifies this, pool, Space(pool)
      ensures ValidWith(pool) && Called(old(shape), calls, parts, found)
      ensures shape == RunTree(old(shape), OpsOf(parts)) && RunEnabled(old(shape), OpsOf(parts))
      ensures Work() == old(Work()) + RunCost(old(shape), OpsOf(parts))
      ensures pool.spEntries - eltscnt == old(pool.spEntries - eltscnt)
      ensures old(shape) == Leaf ==>
                var ops := OpsOf(parts);
                Work() - old(Work()) <= |ops| * (24 * Log2(|ops|) + 7) + RunMissed(Leaf, ops)
    {
      hide *;
      found, parts := [], [];
      ServeStart(shape, calls);
      for i := 0 to |calls|
        invariant ValidWith(pool) && Called(old(shape), calls[..i], parts, found)
        invariant shape == RunTree(old(shape), OpsOf(parts)) && RunEnabled(old(shape), OpsOf(parts))
        invariant Work() == old(Work()) + RunCost(old(shape), OpsOf(parts))
        invariant pool.spEntries - eltscnt == old(pool.spEntries - eltscnt)
        invariant forall x :: x in Space(pool) ==> x in old(Space(pool)) || fresh(x)
      {
        label next:
        var there;
        ghost var part;
        there, part := ServeOne(calls[i], pool);
        CalledMore(old(shape), calls, parts, found, i, part, there);
        RunJoined(old(shape), OpsOf(parts), part);
        found, parts := found + [there], parts + [part];
        forall x | x in Space(pool) ensures x in old(Space(pool)) || fresh(x) {
          assert x in old@next(Space(pool)) || fresh@next(x);
        }
      }
      assert calls[..|calls|] == calls;
      if old(shape) == Leaf { MixedRunAmortised(OpsOf(parts)); }
    }

    static lemma ServeStart(t: Tree, calls: seq<Call>)
      ensures Called(t, calls[..0], [], []) && t == RunTree(t, OpsOf([])) && RunEnabled(t, OpsOf([]))
      ensures RunCost(t, OpsOf([])) == 0
    {
    }

    /** Any look-ups, one after the other: the splay rounds and the key comparisons of all are those of the run, and
        stay within the promise for those that find their key and the comparisons of those that do not. */
    method LookupAll(keys: seq<Key>) returns (found: seq<bool>)
      requires Valid()
      modifies this, Nodes(shape)
      ensures Valid() && |found| == |keys|
      ensures forall i :: 0 <= i < |keys| ==> found[i] == HasKey(InOrder(old(shape)), keys[i])
      ensures InOrder(shape) == old(InOrder(shape)) && Nodes(shape) == old(Nodes(shape))
      ensures var run := LookupRun(old(shape), keys);
              shape == run.0 && splayloops - old(splayloops) == run.1 && lkpcmps - old(lkpcmps) == run.2
      ensures lkpcmps - old(lkpcmps) == |keys| + Passed(old(shape), keys)
      ensures Climbs(old(shape), keys) <= 2 * (splayloops - old(splayloops)) <= 2 * Climbs(old(shape), keys)
      ensures var h, n, l := Yes(found), Size(old(shape)), Log2(Size(old(shape)));
              && splayloops - old(splayloops) <= Bound(h, n, l)
              && lkpcmps - old(lkpcmps) <= h + 2 * Bound(h, n, l) + MissCmps(old(shape), keys)
    {
      hide *;
      found := [];
      ValidParts();
      LookupsStart(shape, keys);
      for i := 0 to |keys|
        invariant Valid() && InOrder(shape) == old(InOrder(shape)) && Nodes(shape) == old(Nodes(shape))
        invariant |found| == i && forall j :: 0 <= j < i ==> found[j] == HasKey(InOrder(old(shape)), keys[j])
        invariant LookupsGoOn(old(shape), keys, i, shape, splayloops - old(splayloops), lkpcmps - old(lkpcmps))
      {
        LookupsMore(old(shape), keys, i, shape, splayloops - old(splayloops), lkpcmps - old(lkpcmps));
        var n := Lookup(keys[i]);
        found := found + [n != null];
      }
      LookupsEnd(old(shape), keys, shape, splayloops - old(splayloops), lkpcmps - old(lkpcmps));
      RunPasses(old(shape), keys);
      YesAreHits(old(shape), keys, found);
      AnyLookupsAmortised(old(shape), keys);
    }

    /** sp_null: all nodes go to the free list.  On an empty tree the counters stay. */
    method Null(pool: Pool)
      requires ValidWith(pool)
      modifies this, pool, Nodes(shape)`up
      ensures ValidWith(pool) && shape == Leaf
      ensures pool.free == ChopOrder(old(shape)) + old(pool.free) && pool.spAllocated == old(pool.spAllocated)
      ensures old(shape).Bin? ==> lookups == lkpcmps == enqs == enqcmps == splays == splayloops == 0
      ensures old(shape).Leaf? ==> unchanged(this)
      ensures pool.spEntries - eltscnt == old(pool.spEntries - eltscnt)
    {
      ChopLength(shape);
      if root == null {
        return;
      }
      RepDown(shape, Snap(Nodes(shape)));
      Chop(root, shape, pool);
      ghost var free := pool.free;
      Reset();
      assert pool.free == free && pool.Valid();
    }

    /** The assignments of src/splay.c:229-236. */
    method Reset()
      modifies this
      ensures Valid() && shape == Leaf && eltscnt == 0
      ensures lookups == lkpcmps == enqs == enqcmps == splays == splayloops == 0
    {
      eltscnt := 0;
      lookups := 0;
      lkpcmps := 0;
      enqs := 0;
      enqcmps := 0;
      splays := 0;
      splayloops := 0;
      root := null;
      shape := Leaf;
    }
  }

  /** After `i` look-ups the tree is `u` and the counters have risen by `loops` and `cmps`. */
  ghost predicate LookupsGoOn(t: Tree, keys: seq<Key>, i: nat, u: Tree, loops: int, cmps: int)
    requires i <= |keys|
  {
    var whole, rest := LookupRun(t, keys), LookupRun(u, keys[i..]);
    whole.0 == rest.0 && whole.1 == loops + rest.1 && whole.2 == cmps + rest.2
  }

  lemma LookupsStart(t: Tree, keys: seq<Key>)
    ensures LookupsGoOn(t, keys, 0, t, 0, 0)
  {
    hide LookupRun;
    assert keys[0..] == keys;
  }

  lemma LookupsMore(t: Tree, keys: seq<Key>, i: nat, u: Tree, loops: int, cmps: int)
    requires i < |keys| && LookupsGoOn(t, keys, i, u, loops, cmps)
    ensures LookupsGoOn(t, keys, i + 1, LookedUp(u, keys[i]), loops + LookupLoops(u, keys[i]),
                        cmps + LookupCmps(u, keys[i]))
  {
    hide LookedUp, LookupLoops, LookupCmps;
    var rest := keys[i..];
    assert rest[0] == keys[i] && rest[1..] == keys[i + 1..];
  }

  lemma LookupsEnd(t: Tree, keys: seq<Key>, u: Tree, loops: int, cmps: int)
    requires LookupsGoOn(t, keys, |keys|, u, loops, cmps)
    ensures LookupRun(t, keys).0 == u && LookupRun(t, keys).1 == loops && LookupRun(t, keys).2 == cmps
  {
    assert keys[|keys|..] == [];
  }

  /** How often the answer was yes. */
  function Yes(answers: seq<bool>): nat {
    if answers == [] then 0 else (if answers[0] then 1 else 0) + Yes(answers[1..])
  }

  lemma {:induction false} YesAreHits(t: Tree, keys: seq<Key>, found: seq<bool>)
    requires Ordered(t) && |found| == |keys|
    requires forall i :: 0 <= i < |keys| ==> found[i] == HasKey(InOrder(t), keys[i])
    ensures Yes(found) == Hits(t, keys)
    decreases |keys|
  {
    hide Ascending, HasKey, InOrder, LookedUp, Seek;
    if keys != [] {
      SeekFinds(t, keys[0], Top);
      LookedUpInOrder(t, keys[0]);
      assert found[0] == HasKey(InOrder(t), keys[0]);
      forall i | 0 <= i < |keys[1..]| ensures found[1..][i] == HasKey(InOrder(t), keys[1..][i]) {
        assert found[i + 1] == HasKey(InOrder(t), keys[i + 1]);
      }
      YesAreHits(LookedUp(t, keys[0]), keys[1..], found[1..]);
    }
  }

  lemma {:induction false} ChopLength(t: Tree)
    ensures |ChopOrder(t)| == Size(t)
  {
    if t.Bin? {
      ChopLength(t.left);
      ChopLength(t.right);
    }
  }

  lemma ChoppedApart(t: Tree, free: seq<Node>, u: Tree)
    requires Nodes(t) !! Nodes(u) && forall x :: x in free ==> x !in Nodes(u)
    ensures forall x :: x in ChopOrder(t) + free ==> x !in Nodes(u)
  {
    ChopNodes(t);
  }

  /** The nodes in the order sp_null leaves them on the free list. */
  ghost function ChopOrder(t: Tree): seq<Node> {
    if t.Leaf? then [] else [t.elem.node] + ChopOrder(t.left) + ChopOrder(t.right)
  }

  lemma {:induction false} ChopNodes(t: Tree)
    ensures forall x :: x in ChopOrder(t) <==> x in Nodes(t)
  {
    if t.Bin? {
      ChopNodes(t.left);
      ChopNodes(t.right);
    }
  }

  /** The child links alone. */
  ghost predicate DownLinks(t: Tree)
    reads Nodes(t)`left, Nodes(t)`right
  {
    t.Bin? ==>
      && t.elem.node.left == Root(t.left) && t.elem.node.right == Root(t.right)
      && DownLinks(t.left) && DownLinks(t.right)
  }

  lemma {:induction false} RepDown(t: Tree, h: Heap)
    requires Rep(t, h) && forall x :: x in Nodes(t) ==> x in h && h[x] == Links(x.left, x.right, x.up, x.key)
    ensures DownLinks(t)
  {
    if t.Bin? {
      RepDown(t.left, h);
      RepDown(t.right, h);
    }
  }

  ghost function NodeSeq(s: seq<Elem>): (r: seq<Node>)
    ensures |r| == |s| && forall i :: 0 <= i < |s| ==> r[i] == s[i].node
  {
    if s == [] then [] else [s[0].node] + NodeSeq(s[1..])
  }

  /** Where a scan starts: at the given node, else at the head. */
  ghost function ScanStart(t: Tree, n: Node?): nat
    requires n != null ==> n in Nodes(t)
  {
    if n == null then 0 else |Before(PathTo(t, n, Top))| + |InOrder(SubtreeAt(t, n).left)|
  }

  lemma ScanStarts(t: Tree, n: Node?)
    requires n != null ==> n in Nodes(t)
    ensures ScanStart(t, n) <= |InOrder(t)|
    ensures n != null ==> ScanStart(t, n) < |InOrder(t)| && InOrder(t)[ScanStart(t, n)].node == n
  {
    if n != null {
      var s, p := SubtreeAt(t, n), PathTo(t, n, Top);
      PathToZip(t, n, Top);
      ZipInOrder(s, p);
      Around(Before(p), InOrder(s.left), s.elem, InOrder(s.right), After(p));
    }
  }

  /** The in-order successor of a node, by its position. */
  ghost function Successor(t: Tree, n: Node): Node?
    requires n in Nodes(t)
  {
    var rest := InOrder(SubtreeAt(t, n).right) + After(PathTo(t, n, Top));
    if rest == [] then null else rest[0].node
  }

  /** Successor is the next element of the in-order sequence. */
  lemma SuccessorAt(t: Tree, i: nat)
    requires Distinct(t) && i < |InOrder(t)|
    ensures var u := InOrder(t);
            && u[i].node in Nodes(t)
            && Successor(t, u[i].node) == if i + 1 < |u| then u[i + 1].node else null
  {
    InOrderAt(t, i);
    var u, n := InOrder(t), InOrder(t)[i].node;
    var s, p := SubtreeAt(t, n), PathTo(t, n, Top);
    PathToZip(t, n, Top);
    ZipInOrder(s, p);
    Around(Before(p), InOrder(s.left), s.elem, InOrder(s.right), After(p));
    var k := |Before(p) + InOrder(s.left)|;
    DistinctNoRepeat(t);
    assert u[k].node == n && i == k;
  }

  lemma Regroup3<T>(a: seq<T>, b: seq<T>, c: seq<T>, d: seq<T>)
    ensures a + (b + (c + d)) == a + b + c + d
  {
  }

  lemma SliceStep<T>(s: seq<T>, from: nat, to: nat)
    requires from <= to < |s|
    ensures s[from..to + 1] == s[from..to] + [s[to]]
  {
  }

  lemma Around<T>(a: seq<T>, b: seq<T>, e: T, c: seq<T>, d: seq<T>)
    ensures a + (b + [e] + c) + d == (a + b) + [e] + (c + d)
    ensures (a + (b + [e] + c) + d)[|a + b|] == e && (a + (b + [e] + c) + d)[|a + b| + 1..] == c + d
  {
    var u := (a + b) + [e] + (c + d);
    assert a + (b + [e] + c) + d == u;
    assert u[|a + b| + 1..] == c + d;
  }

  lemma RepNarrowed(t: Tree, all: set<Node>)
    requires Rep(t, Snap(all)) && Distinct(t) && Nodes(t) <= all
    ensures Rep(t, Snap(Nodes(t)))
  {
    RepKept(t, Snap(all), Snap(Nodes(t)));
  }

  lemma {:induction false} NodesAllocated(t: Tree)
    ensures forall x :: x in Nodes(t) ==> allocated(x)
  {
    if t.Bin? {
      NodesAllocated(t.left);
      NodesAllocated(t.right);
    }
  }
}