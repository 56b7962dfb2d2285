/** The amortised bounds that src/splay.c promises for its operations, on the
    counters the code itself keeps: `lkpcmps`, `splayloops` and `enqcmps`. */
module SplayCost {
  import opened SplayTrees

  // ----- ranks -----

  /** floor(log2 n) for n >= 1, found by doubling; 0 for n == 0. */
  function Log2(n: nat): nat {
    LogFrom(n, 1)
  }

  /** How often `p` can be doubled without passing `n`. */
  function LogFrom(n: nat, p: nat): nat
    requires p >= 1
    decreases n - p
  {
    if n < 2 * p then 0 else 1 + LogFrom(n, 2 * p)
  }

  function Pow2(k: nat): nat {
    if k == 0 then 1 else 2 * Pow2(k - 1)
  }

  lemma {:induction false} LogFromFloor(n: nat, p: nat)
    requires 1 <= p <= n
    ensures p * Pow2(LogFrom(n, p)) <= n < 2 * (p * Pow2(LogFrom(n, p)))
    decreases n - p
  {
    if 2 * p <= n {
      var q := Pow2(LogFrom(n, 2 * p));
      LogFromFloor(n, 2 * p);
      assert p * (2 * q) == 2 * p * q;
    }
  }

  lemma Log2IsFloor(n: nat)
    requires 1 <= n
    ensures Pow2(Log2(n)) <= n < Pow2(Log2(n) + 1)
  {
    LogFromFloor(n, 1);
  }

  lemma {:induction false} LogFromMonotone(a: nat, b: nat, p: nat)
    requires 1 <= p && a <= b
    ensures LogFrom(a, p) <= LogFrom(b, p)
    decreases b - p
  {
    if 2 * p <= b { LogFromMonotone(a, b, 2 * p); }
  }

  lemma Log2Monotone(a: nat, b: nat)
    requires a <= b
    ensures Log2(a) <= Log2(b)
  {
    LogFromMonotone(a, b, 1);
  }

  lemma {:induction false} LogFromDouble(a: nat, p: nat)
    requires 1 <= p
    ensures LogFrom(2 * a, 2 * p) == LogFrom(a, p)
    decreases a - p
  {
    if 2 * p <= a { LogFromDouble(a, 2 * p); }
  }

  /** Two disjoint parts of equal rank make a whole of higher rank. */
  lemma Log2Sum(a: nat, b: nat, n: nat)
    requires 1 <= a && 1 <= b && a + b <= n
    ensures Log2(n) >= 1 + Log2(a) || Log2(n) >= 1 + Log2(b)
  {
    var m := if a <= b then a else b;
    LogFromDouble(m, 1);
    Log2Monotone(2 * m, n);
  }

  /** The sum over all subtrees of floor(log2 size). */
  function Ranks(t: Tree): nat {
    if t.Leaf? then 0 else Log2(Size(t)) + Ranks(t.left) + Ranks(t.right)
  }

  lemma {:induction false} RanksBound(t: Tree, l: nat)
    requires Log2(Size(t)) <= l
    ensures Ranks(t) <= Size(t) * l
  {
    if t.Bin? {
      Log2Monotone(Size(t.left), Size(t));
      Log2Monotone(Size(t.right), Size(t));
      RanksBound(t.left, l);
      RanksBound(t.right, l);
      TimesSum(Size(t.left), Size(t.right), l);
    }
  }

  lemma TimesSum(a: nat, b: nat, l: nat)
    ensures (a + 1 + b) * l == a * l + l + b * l
  {
  }

  // ----- one splay, on sizes alone -----

  /** A path seen from below: which way it bends and how heavy each sibling is. */
  datatype Climb = End | Step(lefter: bool, w: nat, up: Climb)

  function ClimbOf(p: Path): Climb {
    match p
    case Top => End
    case Lefter(_, sib, up) => Step(true, Size(sib), ClimbOf(up))
    case Righter(_, sib, up) => Step(false, Size(sib), ClimbOf(up))
  }

  function Loops(c: Climb): nat {
    match c
    case End => 0
    case Step(d, w, Step(d', w', rest)) => if d == d' then 1 + Loops(rest) else 1 + Loops(c.up)
    case Step(d, w, End) => 1
  }

  /** Size of the whole tree over a subtree of size `s`. */
  function Whole(c: Climb, s: nat): nat {
    if c.End? then s else Whole(c.up, s + 1 + c.w)
  }

  /** The ranks of the path's nodes before the splay. */
  function Old(c: Climb, s: nat): nat {
    if c.End? then 0 else Log2(s + 1 + c.w) + Old(c.up, s + 1 + c.w)
  }

  /** The ranks of the same nodes in the trees of sizes `a` and `b` that the
      splay extends; `b` grows on a left bend, `a` on a right bend. */
  function New(c: Climb, a: nat, b: nat): nat
    decreases c
  {
    match c
    case End => 0
    case Step(d, w, up) =>
      var x := if d then b else a;
      if up.Step? && up.lefter == d then
        var y := w + 1 + up.w;
        var x' := x + 1 + y;
        Log2(y) + Log2(x') + New(up.up, if d then a else x', if d then x' else b)
      else
        var x' := x + 1 + w;
        Log2(x') + New(up, if d then a else x', if d then x' else b)
  }

  /** The step inequality on ranks alone: `a`, `b`, `c` climb along the path,
      `d` and `e` are the new ranks, and one doubling is guaranteed. */
  lemma StepArithmetic(a: nat, b: nat, c: nat, d: nat, e: nat)
    requires a <= b <= c && d <= c && e <= c
    requires c >= 1 + e || c >= 1 + a || c >= 1 + d
    ensures 1 + d + e <= a + b + 3 * (c - a)
  {
  }

  /** Two nodes bending the same way: the rotation step. */
  lemma ZigZig(s: nat, s1: nat, s2: nat, u: nat, uu: nat)
    requires 1 <= s < s1 < s2 && u <= s2 && 1 <= uu && s + uu < s2
    ensures 1 + Log2(u) + Log2(uu) <= Log2(s) + Log2(s1) + 3 * (Log2(s2) - Log2(s))
  {
    Log2Monotone(s, s1);
    Log2Monotone(s1, s2);
    Log2Monotone(u, s2);
    Log2Monotone(uu, s2);
    Log2Sum(s, uu, s2);
    StepArithmetic(Log2(s), Log2(s1), Log2(s2), Log2(u), Log2(uu));
  }

  /** Two nodes bending opposite ways: two single steps. */
  lemma ZigZag(s: nat, s1: nat, s2: nat, u: nat, uu: nat)
    requires 1 <= s < s1 < s2 && 1 <= u && 1 <= uu && u + uu < s2
    ensures 1 + Log2(u) + Log2(uu) <= Log2(s) + Log2(s1) + 3 * (Log2(s2) - Log2(s))
  {
    Log2Monotone(s, s1);
    Log2Monotone(s1, s2);
    Log2Monotone(u, s2);
    Log2Monotone(uu, s2);
    Log2Sum(u, uu, s2);
    StepArithmetic(Log2(s), Log2(s1), Log2(s2), Log2(u), Log2(uu));
  }

  lemma Zig(s: nat, s1: nat, u: nat)
    requires 1 <= s < s1 && u <= s1
    ensures Log2(s) <= Log2(s1) && Log2(u) <= Log2(s1)
  {
    Log2Monotone(s, s1);
    Log2Monotone(u, s1);
  }

  /** Twice the fall of the rank sum, plus six times the climb of the splayed
      node's rank, pays for all iterations but `k`. */
  ghost predicate Pays(c: Climb, a: nat, b: nat, s: nat, k: nat) {
    var n := Whole(c, s);
    Loops(c) <= k + 2 * (Log2(s) + Old(c, s) - Log2(n) - New(c, a, b) + 3 * (Log2(n) - Log2(s)))
  }

  /** One single step, unfolded. */
  lemma SingleStep(c: Climb, a: nat, b: nat, s: nat, x': nat, a1: nat, b1: nat)
    requires c.Step? && (c.up.Step? ==> c.up.lefter != c.lefter) && s == a + 1 + b
    requires x' == (if c.lefter then b else a) + 1 + c.w
    requires a1 == (if c.lefter then a else x') && b1 == (if c.lefter then x' else b)
    ensures Old(c, s) == Log2(s + 1 + c.w) + Old(c.up, s + 1 + c.w)
    ensures New(c, a, b) == Log2(x') + New(c.up, a1, b1)
    ensures Whole(c, s) == Whole(c.up, s + 1 + c.w) && Loops(c) == 1 + Loops(c.up)
  {
  }

  /** A single step is paid for together with the step after it. */
  lemma {:induction false} ClimbCost(c: Climb, a: nat, b: nat, s: nat)
    requires s == a + 1 + b
    ensures Pays(c, a, b, s, 1)
    decreases c, 1
  {
    if c.Step? {
      if c.up.End? {
        Zig(s, s + 1 + c.w, (if c.lefter then b else a) + 1 + c.w);
      } else if c.up.lefter == c.lefter {
        SameBend(c, a, b, s);
      } else if c.up.up.Step? && c.up.up.lefter == c.up.lefter {
        BendThenSame(c, a, b, s);
      } else {
        TwoBends(c, a, b, s);
      }
    }
  }

  lemma {:induction false} SameBend(c: Climb, a: nat, b: nat, s: nat)
    requires c.Step? && c.up.Step? && c.up.lefter == c.lefter && s == a + 1 + b
    ensures Pays(c, a, b, s, 0)
    decreases c, 0
  {
    var d, w, rest := c.lefter, c.w, c.up.up;
    var s1 := s + 1 + w;
    var s2 := s1 + 1 + c.up.w;
    var y := w + 1 + c.up.w;
    var x' := (if d then b else a) + 1 + y;
    var a', b' := if d then a else x', if d then x' else b;
    hide Log2;
    ZigZig(s, s1, s2, x', y);
    ClimbCost(rest, a', b', s2);
    var k, k1, k2, ky, kx := Log2(s), Log2(s1), Log2(s2), Log2(y), Log2(x');
    assert Old(c, s) == k1 + (k2 + Old(rest, s2));
    assert New(c, a, b) == ky + kx + New(rest, a', b');
    assert Whole(c, s) == Whole(rest, s2);
    assert Loops(c) == 1 + Loops(rest);
  }

  lemma {:induction false} BendThenSame(c: Climb, a: nat, b: nat, s: nat)
    requires c.Step? && c.up.Step? && c.up.lefter != c.lefter && s == a + 1 + b
    requires c.up.up.Step? && c.up.up.lefter == c.up.lefter
    ensures Pays(c, a, b, s, 1)
    decreases c, 0
  {
    var d, w, up := c.lefter, c.w, c.up;
    var s1 := s + 1 + w;
    var x' := (if d then b else a) + 1 + w;
    var a1, b1 := if d then a else x', if d then x' else b;
    Zig(s, s1, x');
    SameBend(up, a1, b1, s1);
    SingleStep(c, a, b, s, x', a1, b1);
  }

  lemma {:induction false} TwoBends(c: Climb, a: nat, b: nat, s: nat)
    requires c.Step? && c.up.Step? && c.up.lefter != c.lefter && s == a + 1 + b
    requires c.up.up.Step? ==> c.up.up.lefter != c.up.lefter
    ensures Pays(c, a, b, s, 1)
    decreases c, 0
  {
    var d, w, up, rest := c.lefter, c.w, c.up, c.up.up;
    var s1 := s + 1 + w;
    var s2 := s1 + 1 + up.w;
    var x' := (if d then b else a) + 1 + w;
    var z' := (if d then a else b) + 1 + up.w;
    var a1, b1 := if d then a else x', if d then x' else b;
    var a', b' := if d then z' else x', if d then x' else z';
    hide Log2, Old, New, Whole, Loops;
    ZigZag(s, s1, s2, x', z');
    ClimbCost(rest, a', b', s2);
    SingleStep(c, a, b, s, x', a1, b1);
    SingleStep(up, a1, b1, s1, z', a', b');
  }

  // ----- the same on trees -----

  function SibRanks(p: Path): nat {
    if p.Top? then 0 else Ranks(p.sib) + SibRanks(p.up)
  }

  lemma RanksBin(l: Tree, e: Elem, r: Tree, s: nat)
    requires s == Size(l) + 1 + Size(r)
    ensures Size(Bin(l, e, r)) == s
    ensures Ranks(Bin(l, e, r)) == Log2(s) + Ranks(l) + Ranks(r)
  {
  }

  /** The whole tree's rank sum is that of the part, the siblings and the path. */
  ghost predicate ZipAccounted(t: Tree, p: Path, s: nat) {
    && Ranks(Zip(t, p)) == Ranks(t) + SibRanks(p) + Old(ClimbOf(p), s)
    && Size(Zip(t, p)) == Whole(ClimbOf(p), s)
  }

  lemma {:induction false} ZipRanks(t: Tree, p: Path, s: nat)
    requires s == Size(t)
    ensures ZipAccounted(t, p, s)
    decreases p
  {
    if !p.Top? {
      var u := if p.Lefter? then Bin(t, p.elem, p.sib) else Bin(p.sib, p.elem, t);
      var s' := s + 1 + Size(p.sib);
      if p.Lefter? { RanksBin(t, p.elem, p.sib, s'); } else { RanksBin(p.sib, p.elem, t, s'); }
      ZipRanks(u, p.up, s');
      assert Zip(t, p) == Zip(u, p.up);
      assert ClimbOf(p) == Step(p.Lefter?, Size(p.sib), ClimbOf(p.up));
    }
  }

  lemma {:induction false} LoopsOfPath(p: Path)
    ensures SplayLoops(p) == Loops(ClimbOf(p))
    decreases Depth(p)
  {
    if !p.Top? {
      LoopsOfPath(SplayStep(Leaf, Leaf, p).2);
    }
  }

  /** What SplayUp does to the rank sum, against the sizes-only account. */
  ghost predicate Accounted(l: Tree, r: Tree, p: Path, a: nat, b: nat) {
    var (l', r') := SplayUp(l, r, p);
    Ranks(l') + Ranks(r') == Ranks(l) + Ranks(r) + SibRanks(p) + New(ClimbOf(p), a, b)
  }

  lemma SameStep(c: Climb, a: nat, b: nat, y: nat, x': nat, a': nat, b': nat)
    requires c.Step? && c.up.Step? && c.up.lefter == c.lefter
    requires y == c.w + 1 + c.up.w && x' == (if c.lefter then b else a) + 1 + y
    requires a' == (if c.lefter then a else x') && b' == (if c.lefter then x' else b)
    ensures New(c, a, b) == Log2(y) + Log2(x') + New(c.up.up, a', b')
  {
  }

  /** The rotation step moves the ranks of two nodes from the path to a tree. */
  lemma AccountSame(grown: Tree, t: Tree, p: Path, a: nat, b: nat, a': nat, b': nat)
    requires !p.Top? && !p.up.Top? && p.Lefter? == p.up.Lefter?
    requires Size(t) == (if p.Lefter? then b else a)
    requires grown == if p.Lefter? then Bin(t, p.elem, Bin(p.sib, p.up.elem, p.up.sib))
                      else Bin(Bin(p.up.sib, p.up.elem, p.sib), p.elem, t)
    requires a' == (if p.Lefter? then a else Size(grown)) && b' == (if p.Lefter? then Size(grown) else b)
    ensures Ranks(grown) + SibRanks(p.up.up) + New(ClimbOf(p.up.up), a', b')
            == Ranks(t) + SibRanks(p) + New(ClimbOf(p), a, b)
  {
    var c := ClimbOf(p);
    var y := Size(p.sib) + 1 + Size(p.up.sib);
    if p.Lefter? {
      RanksBin(p.sib, p.up.elem, p.up.sib, y);
      RanksBin(t, p.elem, Bin(p.sib, p.up.elem, p.up.sib), Size(t) + 1 + y);
    } else {
      RanksBin(p.up.sib, p.up.elem, p.sib, y);
      RanksBin(Bin(p.up.sib, p.up.elem, p.sib), p.elem, t, Size(t) + 1 + y);
    }
    assert c.up == ClimbOf(p.up) && c.up.up == ClimbOf(p.up.up);
    SameStep(c, a, b, y, Size(t) + 1 + y, a', b');
    assert SibRanks(p) == Ranks(p.sib) + (Ranks(p.up.sib) + SibRanks(p.up.up));
  }

  /** The single step moves one. */
  lemma AccountSingle(grown: Tree, t: Tree, p: Path, a: nat, b: nat, a': nat, b': nat)
    requires !p.Top? && (p.up.Top? || p.Lefter? != p.up.Lefter?)
    requires Size(t) == (if p.Lefter? then b else a)
    requires grown == if p.Lefter? then Bin(t, p.elem, p.sib) else Bin(p.sib, p.elem, t)
    requires a' == (if p.Lefter? then a else Size(grown)) && b' == (if p.Lefter? then Size(grown) else b)
    ensures Ranks(grown) + SibRanks(p.up) + New(ClimbOf(p.up), a', b')
            == Ranks(t) + SibRanks(p) + New(ClimbOf(p), a, b)
  {
    var c := ClimbOf(p);
    var x' := Size(t) + 1 + Size(p.sib);
    if p.Lefter? {
      RanksBin(t, p.elem, p.sib, x');
    } else {
      RanksBin(p.sib, p.elem, t, x');
    }
    assert c.up == ClimbOf(p.up);
    SingleStep(c, a, b, a + 1 + b, x', a', b');
  }

  /** An iteration keeps the account balanced. */
  ghost predicate StepAccounted(l: Tree, r: Tree, p: Path, l': Tree, r': Tree, p': Path) {
    Ranks(l') + Ranks(r') + SibRanks(p') + New(ClimbOf(p'), Size(l'), Size(r'))
    == Ranks(l) + Ranks(r) + SibRanks(p) + New(ClimbOf(p), Size(l), Size(r))
  }

  lemma StepRanksLefter(l: Tree, r: Tree, p: Path, r': Tree, p': Path)
    requires p.Lefter? && SplayStep(l, r, p) == (l, r', p')
    ensures StepAccounted(l, r, p, l, r', p')
  {
    if p.up.Lefter? {
      AccountSame(r', r, p, Size(l), Size(r), Size(l), Size(r'));
    } else {
      AccountSingle(r', r, p, Size(l), Size(r), Size(l), Size(r'));
    }
  }

  lemma StepRanksRighter(l: Tree, r: Tree, p: Path, l': Tree, p': Path)
    requires p.Righter? && SplayStep(l, r, p) == (l', r, p')
    ensures StepAccounted(l, r, p, l', r, p')
  {
    if p.up.Righter? {
      AccountSame(l', l, p, Size(l), Size(r), Size(l'), Size(r));
    } else {
      AccountSingle(l', l, p, Size(l), Size(r), Size(l'), Size(r));
    }
  }

  lemma {:induction false} SplayUpRanks(l: Tree, r: Tree, p: Path)
    ensures Accounted(l, r, p, Size(l), Size(r))
    decreases Depth(p)
  {
    if !p.Top? {
      var (l', r', p') := SplayStep(l, r, p);
      if p.Lefter? { StepRanksLefter(l, r, p, r', p'); } else { StepRanksRighter(l, r, p, l', p'); }
      SplayUpRanks(l', r', p');
    }
  }

  /** One splay, in the amortised sense, costs at most 1 + 6 floor(log2 n) iterations. */
  lemma SplayCost(s: Tree, p: Path)
    requires s.Bin?
    ensures var t, t' := Zip(s, p), Splayed(s, p);
            && Size(t') == Size(t)
            && SplayLoops(p) <= 1 + 2 * (Ranks(t) - Ranks(t') + 3 * Log2(Size(t)))
  {
    var (l, r) := SplayUp(s.left, s.right, p);
    var c := ClimbOf(p);
    var a, b, n := Size(s.left), Size(s.right), Size(Zip(s, p));
    var m := a + 1 + b;
    ZipRanks(s, p, m);
    LoopsOfPath(p);
    SplayedInOrder(s, p);
    SameInOrder(Splayed(s, p), Zip(s, p));
    SplayUpRanks(s.left, s.right, p);
    ClimbCost(c, a, b, m);
    RanksBin(l, s.elem, r, n);
    RanksBin(s.left, s.elem, s.right, m);
    SplayCostArithmetic(Loops(c), Log2(m), Old(c, m), Log2(n), New(c, a, b),
                        Ranks(s.left) + Ranks(s.right), SibRanks(p), Ranks(Zip(s, p)), Ranks(Splayed(s, p)));
  }

  lemma SplayCostArithmetic(loops: nat, k: nat, before: nat, top: nat, after: nat, own: nat, sibs: nat, t: nat, t': nat)
    requires loops <= 1 + 2 * (k + before - top - after + 3 * (top - k))
    requires t == k + own + sibs + before && t' == top + own + sibs + after
    ensures loops <= 1 + 2 * (t - t' + 3 * top)
  {
  }

  // ----- runs of successful look-ups on one tree -----

  /** An iteration disposes of at most two nodes of the path. */
  lemma {:induction false} DepthBound(p: Path)
    ensures Depth(p) <= 2 * SplayLoops(p)
    decreases Depth(p)
  {
    if !p.Top? {
      DepthBound(SplayStep(Leaf, Leaf, p).2);
    }
  }

  /** And of one at least. */
  lemma {:induction false} DepthAtLeast(p: Path)
    ensures SplayLoops(p) <= Depth(p)
    decreases Depth(p)
  {
    if !p.Top? {
      DepthAtLeast(SplayStep(Leaf, Leaf, p).2);
    }
  }

  /** How many nodes above the foot of the path bend the same way, and the path above them. */
  function Straight(p: Path): nat {
    match p
    case Top => 0
    case Lefter(_, _, up) => if up.Lefter? then 1 + Straight(up) else 1
    case Righter(_, _, up) => if up.Righter? then 1 + Straight(up) else 1
  }

  function Climbed(p: Path, k: nat): (up: Path)
    requires k <= Depth(p)
    ensures Depth(up) == Depth(p) - k
  {
    if k == 0 then p else Climbed(p.up, k - 1)
  }

  lemma {:induction false} StraightShort(p: Path)
    ensures Straight(p) <= Depth(p)
  {
    if !p.Top? { StraightShort(p.up); }
  }

  /** A stretch of k nodes that bend the same way takes half as many iterations, rounded up. */
  lemma {:induction false} StraightHalved(p: Path)
    requires !p.Top?
    ensures 0 < Straight(p) <= Depth(p)
    ensures SplayLoops(p) == (Straight(p) + 1) / 2 + SplayLoops(Climbed(p, Straight(p)))
    decreases Depth(p)
  {
    StraightShort(p);
    if Straight(p) > 2 {
      StraightHalved(p.up.up);
      assert Climbed(p, Straight(p)) == Climbed(p.up.up, Straight(p) - 2);
    } else if Straight(p) == 2 {
      assert Climbed(p, 2) == Climbed(p.up, 1) == p.up.up;
    } else {
      assert Climbed(p, 1) == p.up;
    }
  }

  lemma {:induction false} SeekDepth(t: Tree, key: Key, acc: Path)
    ensures Depth(Seek(t, key, acc).1) == SeekSteps(t, key) + Depth(acc)
  {
    if t.Leaf? || t.elem.key == key {
    } else if key < t.elem.key {
      SeekDepth(t.left, key, Lefter(t.elem, t.right, acc));
    } else {
      SeekDepth(t.right, key, Righter(t.elem, t.left, acc));
    }
  }

  function LookupLoops(t: Tree, key: Key): nat {
    var (s, p) := Seek(t, key, Top);
    if s.Bin? then SplayLoops(p) else 0
  }

  function LookupCmps(t: Tree, key: Key): nat {
    1 + SeekSteps(t, key)
  }

  /** A successful look-up, amortised. */
  lemma LookupCost(t: Tree, key: Key)
    requires Seek(t, key, Top).0.Bin?
    ensures Size(LookedUp(t, key)) == Size(t)
    ensures LookupLoops(t, key) <= 1 + 2 * (Ranks(t) - Ranks(LookedUp(t, key)) + 3 * Log2(Size(t)))
    ensures LookupCmps(t, key) <= 1 + 2 * LookupLoops(t, key)
  {
    var (s, p) := Seek(t, key, Top);
    SeekZip(t, key, Top);
    SeekDepth(t, key, Top);
    SplayCost(s, p);
    DepthBound(p);
  }

  /** The tree and the two counters after a run of look-ups. */
  function LookupRun(t: Tree, keys: seq<Key>): (Tree, nat, nat)
    decreases |keys|
  {
    if keys == [] then (t, 0, 0)
    else
      var (t', loops, cmps) := LookupRun(LookedUp(t, keys[0]), keys[1..]);
      (t', LookupLoops(t, keys[0]) + loops, LookupCmps(t, keys[0]) + cmps)
  }

  /** How many look-ups of the run find their key. */
  function Hits(t: Tree, keys: seq<Key>): nat
    decreases |keys|
  {
    if keys == [] then 0
    else (if Seek(t, keys[0], Top).0.Bin? then 1 else 0) + Hits(LookedUp(t, keys[0]), keys[1..])
  }

  /** What the look-ups that miss compare: each its way down the tree of its moment. */
  function MissCmps(t: Tree, keys: seq<Key>): nat
    decreases |keys|
  {
    if keys == [] then 0
    else
      (if Seek(t, keys[0], Top).0.Bin? then 0 else 1 + SeekSteps(t, keys[0]))
      + MissCmps(LookedUp(t, keys[0]), keys[1..])
  }

  /** The nodes above the foot of every search, each on the tree of its moment. */
  function Passed(t: Tree, keys: seq<Key>): nat
    decreases |keys|
  {
    if keys == [] then 0 else Depth(Seek(t, keys[0], Top).1) + Passed(LookedUp(t, keys[0]), keys[1..])
  }

  /** The same of the searches that find their key. */
  function Climbs(t: Tree, keys: seq<Key>): nat
    decreases |keys|
  {
    if keys == [] then 0
    else
      var (s, p) := Seek(t, keys[0], Top);
      (if s.Bin? then Depth(p) else 0) + Climbs(LookedUp(t, keys[0]), keys[1..])
  }

  /** A run compares once for every search and once for every node it passes, and its iterations are half
      as many as the nodes climbed over at least, and no more than those. */
  lemma {:induction false} RunPasses(t: Tree, keys: seq<Key>)
    ensures var (_, loops, cmps) := LookupRun(t, keys);
            cmps == |keys| + Passed(t, keys) && Climbs(t, keys) <= 2 * loops && loops <= Climbs(t, keys)
    decreases |keys|
  {
    if keys != [] {
      var k := keys[0];
      SeekDepth(t, k, Top);
      DepthBound(Seek(t, k, Top).1);
      DepthAtLeast(Seek(t, k, Top).1);
      RunPasses(LookedUp(t, k), keys[1..]);
      hide Seek, SeekSteps, LookedUp, SplayLoops, Depth;
    }
  }

  lemma {:induction false} LookupRunCost(t: Tree, keys: seq<Key>, l: nat)
    requires l == Log2(Size(t))
    ensures var (t', loops, cmps) := LookupRun(t, keys);
            && Size(t') == Size(t)
            && loops + 2 * Ranks(t') <= Hits(t, keys) * (6 * l + 1) + 2 * Ranks(t)
            && cmps <= Hits(t, keys) + 2 * loops + MissCmps(t, keys)
    decreases |keys|
  {
    if keys != [] {
      var k := keys[0];
      if Seek(t, k, Top).0.Bin? { LookupCost(t, k); }
      LookupRunCost(LookedUp(t, k), keys[1..], l);
      hide Log2, Ranks, Size, SeekSteps, LookedUp, Seek, SplayLoops;
      if Seek(t, k, Top).0.Bin? { TimesSuccessor(Hits(t, keys), 6 * l + 1); }
    }
  }

  /** Any look-ups at all on an n-node tree, h of which find their key: the hits together cost at most
      h(6L + 1) + 2nL splay iterations, where L = floor(log2 n), and at most h plus twice that many key
      comparisons; the misses cost their comparisons and no iteration. */
  lemma {:induction false} AnyLookupsAmortised(t: Tree, keys: seq<Key>)
    ensures var (t', loops, cmps) := LookupRun(t, keys);
            var h, n, l := Hits(t, keys), Size(t), Log2(Size(t));
            loops <= Bound(h, n, l) && cmps <= h + 2 * Bound(h, n, l) + MissCmps(t, keys)
  {
    hide *;
    var n, l := Size(t), Log2(Size(t));
    LookupRunCost(t, keys, l);
    RanksBound(t, l);
    BoundIs(Hits(t, keys), n, l);
    var (t', loops, cmps) := LookupRun(t, keys);
    SpentAtMost(Hits(t, keys), Hits(t, keys) * (6 * l + 1), n * l, loops, cmps, MissCmps(t, keys), Ranks(t), Ranks(t'));
  }

  /** The promised bound for m look-ups on n nodes, l being floor(log2 n). */
  function Bound(m: nat, n: nat, l: nat): nat { m * (6 * l + 1) + 2 * (n * l) }

  lemma BoundIs(m: nat, n: nat, l: nat)
    ensures Bound(m, n, l) == m * (6 * l + 1) + 2 * (n * l)
  {
  }

  /** On a search tree a look-up hits exactly when the key is there; if all are there, all look-ups hit. */
  lemma {:induction false} AllHit(t: Tree, keys: seq<Key>)
    requires Ordered(t) && forall k :: k in keys ==> HasKey(InOrder(t), k)
    ensures Hits(t, keys) == |keys| && MissCmps(t, keys) == 0
    decreases |keys|
  {
    if keys != [] {
      assert HasKey(InOrder(t), keys[0]);
      SeekFinds(t, keys[0], Top);
      LookedUpInOrder(t, keys[0]);
      AllHit(LookedUp(t, keys[0]), keys[1..]);
    }
  }

  /** Any m successful look-ups on an n-node tree cost at most
      m(6L + 1) + 2nL splay iterations, where L = floor(log2 n), and at most m
      plus twice that many key comparisons. */
  lemma {:induction false} LookupsAmortised(t: Tree, keys: seq<Key>)
    requires Ordered(t)
    requires forall k :: k in keys ==> HasKey(InOrder(t), k)
    ensures var (t', loops, cmps) := LookupRun(t, keys);
            var bound := Bound(|keys|, Size(t), Log2(Size(t)));
            loops <= bound && cmps <= |keys| + 2 * bound
  {
    hide *;
    AllHit(t, keys);
    AnyLookupsAmortised(t, keys);
  }

  lemma SpentAtMost(m: nat, steps: int, credit: int, loops: nat, cmps: nat, missed: nat, before: nat, after: nat)
    requires loops + 2 * after <= steps + 2 * before && before <= credit && cmps <= m + 2 * loops + missed
    ensures loops <= steps + 2 * credit && cmps <= m + 2 * (steps + 2 * credit) + missed
  {
  }

  // ----- one top-down split, on sizes alone -----

  /** A search path seen from above: which way it goes and how heavy the
      subtree is that it leaves aside. */
  datatype Dive = Bottom | Down(right: bool, w: nat, next: Dive)

  function DiveOf(t: Tree, key: Key): Dive {
    if t.Leaf? then Bottom
    else if t.elem.key < key then Down(true, Size(t.left), DiveOf(t.right, key))
    else Down(false, Size(t.right), DiveOf(t.left, key))
  }

  function Weight(d: Dive): nat {
    if d.Bottom? then 0 else 1 + d.w + Weight(d.next)
  }

  /** The size of the tree split off on one side. */
  function Part(d: Dive, right: bool): nat {
    if d.Bottom? then 0 else Part(d.next, right) + (if d.right == right then 1 + d.w else 0)
  }

  lemma {:induction false} PartsWeigh(d: Dive, right: bool)
    ensures Part(d, right) + Part(d, !right) == Weight(d)
  {
    if d.Down? { PartsWeigh(d.next, right); }
  }

  ghost predicate Doubles(d: Dive) {
    d.Down? && d.next.Down? && d.next.right == d.right
  }

  function CmpsOf(d: Dive): nat {
    match d
    case Bottom => 0
    case Down(_, _, Bottom) => 1
    case Down(right, _, Down(right', _, rest)) => if right == right' then 2 + CmpsOf(rest) else 1 + CmpsOf(d.next)
  }

  /** The ranks of the path's nodes before and after. */
  function OldRanks(d: Dive): nat {
    if d.Bottom? then 0 else Log2(Weight(d)) + OldRanks(d.next)
  }

  function NewRanks(d: Dive): nat {
    if d.Bottom? then 0
    else if d.next.Down? && d.next.right == d.right then
      var y := d.w + 1 + d.next.w;
      Log2(y) + Log2(y + 1 + Part(d.next.next, d.right)) + NewRanks(d.next.next)
    else Log2(1 + d.w + Part(d.next, d.right)) + NewRanks(d.next)
  }

  /** Three times the fall of the rank sum, plus six times the rank of the
      tree, pays for all comparisons but `k`. */
  ghost predicate DivePays(d: Dive, k: nat) {
    CmpsOf(d) <= k + 3 * (OldRanks(d) - NewRanks(d) + 2 * Log2(Weight(d)))
  }

  /** Two comparisons and a rotation: `s` the whole, `s1` the child, `u` the
      node rotated below it, `n` what is still to split. */
  lemma RotatePays(s: nat, s1: nat, u: nat, n: nat)
    requires 1 <= n < s1 < s && 1 <= u && u + n < s
    ensures 1 <= Log2(s1) - Log2(u) + 2 * (Log2(s) - Log2(n))
  {
    Log2Monotone(n, s1);
    Log2Monotone(s1, s);
    Log2Monotone(u, s);
    Log2Sum(u, n, s);
  }

  /** Two comparisons that each change sides, leaving parts `x` and `z`. */
  lemma ChangePays(s: nat, s1: nat, x: nat, z: nat, n: nat)
    requires 1 <= n < s1 < s && 1 <= x && 1 <= z <= s1 && x + z <= s
    ensures 1 <= Log2(s) - Log2(x) + Log2(s1) - Log2(z) + 2 * (Log2(s) - Log2(n))
  {
    Log2Monotone(n, s1);
    Log2Monotone(s1, s);
    Log2Monotone(z, s1);
    Log2Monotone(x, s);
    Log2Sum(x, z, s);
  }

  lemma {:induction false} DiveCost(d: Dive)
    requires d.Down?
    ensures DivePays(d, 3)
    decreases d, 1
  {
    if d.next.Down? {
      if Doubles(d) {
        DoubleCost(d);
      } else if Doubles(d.next) {
        var s1, s, x := Weight(d.next), Weight(d), 1 + d.w + Part(d.next, d.right);
        PartsWeigh(d.next, d.right);
        DoubleCost(d.next);
        Log2Monotone(s1, s);
        Log2Monotone(x, s);
      } else {
        ChangeCost(d);
      }
    }
  }

  lemma {:induction false} DoubleCost(d: Dive)
    requires Doubles(d)
    ensures DivePays(d, 2)
    decreases d, 0
  {
    var rest := d.next.next;
    var s, s1, n := Weight(d), Weight(d.next), Weight(rest);
    var y := d.w + 1 + d.next.w;
    var x := y + 1 + Part(rest, d.right);
    PartsWeigh(rest, d.right);
    assert s == 1 + d.w + s1 && s1 == 1 + d.next.w + n;
    Log2Monotone(x, s);
    assert OldRanks(d) == Log2(s) + (Log2(s1) + OldRanks(rest));
    assert NewRanks(d) == Log2(y) + Log2(x) + NewRanks(rest);
    if rest.Bottom? {
      Log2Monotone(y, s);
    } else {
      DiveCost(rest);
      RotatePays(s, s1, y, n);
    }
  }

  lemma {:induction false} ChangeCost(d: Dive)
    requires d.Down? && d.next.Down? && d.next.right != d.right && !Doubles(d.next)
    ensures DivePays(d, 3)
    decreases d, 0
  {
    var rest := d.next.next;
    var s, s1, n := Weight(d), Weight(d.next), Weight(rest);
    var x := 1 + d.w + Part(d.next, d.right);
    var z := 1 + d.next.w + Part(rest, d.next.right);
    PartsWeigh(rest, d.right);
    assert s == 1 + d.w + s1 && s1 == 1 + d.next.w + n;
    assert x + z == s && z <= s1;
    assert OldRanks(d) == Log2(s) + (Log2(s1) + OldRanks(rest));
    assert NewRanks(d.next) == Log2(z) + NewRanks(rest);
    assert NewRanks(d) == Log2(x) + NewRanks(d.next);
    if rest.Bottom? {
      Log2Monotone(x, s);
    } else {
      DiveCost(rest);
      ChangePays(s, s1, x, z, n);
    }
  }

  // ----- the same on trees -----

  /** Ranks of the subtrees the split leaves aside. */
  function AsideRanks(t: Tree, key: Key): nat {
    if t.Leaf? then 0
    else if t.elem.key < key then Ranks(t.left) + AsideRanks(t.right, key)
    else Ranks(t.right) + AsideRanks(t.left, key)
  }

  lemma {:induction false} DiveMeasures(t: Tree, key: Key)
    ensures Weight(DiveOf(t, key)) == Size(t)
    ensures Ranks(t) == AsideRanks(t, key) + OldRanks(DiveOf(t, key))
    ensures CmpsOf(DiveOf(t, key)) == SplitCmps(t, key)
  {
    if t.Bin? {
      DiveMeasures(t.left, key);
      DiveMeasures(t.right, key);
      if t.elem.key < key && t.right.Bin? { DiveMeasures(t.right.right, key); }
      if !(t.elem.key < key) && t.left.Bin? { DiveMeasures(t.left.left, key); }
    }
  }

  lemma {:induction false} SplitSizes(t: Tree, key: Key)
    ensures Size(Split(t, key).0) == Part(DiveOf(t, key), true)
    ensures Size(Split(t, key).1) == Part(DiveOf(t, key), false)
  {
    if t.Bin? {
      if t.elem.key < key {
        SplitSizes(if t.right.Bin? && t.right.elem.key < key then t.right.right else t.right, key);
      } else {
        SplitSizes(if t.left.Bin? && !(t.left.elem.key < key) then t.left.left else t.left, key);
      }
    }
  }

  ghost predicate SplitAccounted(t: Tree, key: Key) {
    var (l, r) := Split(t, key);
    Ranks(l) + Ranks(r) == AsideRanks(t, key) + NewRanks(DiveOf(t, key))
  }

  lemma {:induction false} SplitRanks(t: Tree, key: Key)
    ensures SplitAccounted(t, key)
    decreases t, 1
  {
    if t.Bin? {
      if t.elem.key < key {
        if t.right.Bin? && t.right.elem.key < key { DoubleRanksLower(t, key); } else { SingleRanksLower(t, key); }
      } else {
        if t.left.Bin? && !(t.left.elem.key < key) { DoubleRanksUpper(t, key); } else { SingleRanksUpper(t, key); }
      }
    }
  }

  lemma {:induction false} SingleRanksLower(t: Tree, key: Key)
    requires t.Bin? && t.elem.key < key && (t.right.Bin? ==> !(t.right.elem.key < key))
    ensures SplitAccounted(t, key)
    decreases t, 0
  {
    var d, l := DiveOf(t, key), Split(t.right, key).0;
    SplitRanks(t.right, key);
    SplitSizes(t.right, key);
    RanksBin(t.left, t.elem, l, 1 + d.w + Part(d.next, true));
    assert Split(t, key) == (Bin(t.left, t.elem, l), Split(t.right, key).1);
  }

  lemma {:induction false} SingleRanksUpper(t: Tree, key: Key)
    requires t.Bin? && !(t.elem.key < key) && (t.left.Bin? ==> t.left.elem.key < key)
    ensures SplitAccounted(t, key)
    decreases t, 0
  {
    var d, r := DiveOf(t, key), Split(t.left, key).1;
    SplitRanks(t.left, key);
    SplitSizes(t.left, key);
    RanksBin(r, t.elem, t.right, 1 + d.w + Part(d.next, false));
    assert Split(t, key) == (Split(t.left, key).0, Bin(r, t.elem, t.right));
  }

  lemma NewDouble(d: Dive, y: nat, z: nat)
    requires Doubles(d) && y == d.w + 1 + d.next.w && z == y + 1 + Part(d.next.next, d.right)
    ensures NewRanks(d) == Log2(y) + Log2(z) + NewRanks(d.next.next)
  {
    hide Log2, Part;
  }

  lemma {:induction false} DoubleRanksLower(t: Tree, key: Key)
    requires t.Bin? && t.elem.key < key && t.right.Bin? && t.right.elem.key < key
    ensures SplitAccounted(t, key)
    decreases t, 0
  {
    var temp := t.right;
    var l, rest, low := Split(temp.right, key).0, DiveOf(temp.right, key), Bin(t.left, t.elem, temp.left);
    var y := Size(t.left) + 1 + Size(temp.left);
    var z := y + 1 + Part(rest, true);
    SplitRanks(temp.right, key);
    SplitSizes(temp.right, key);
    RanksBin(t.left, t.elem, temp.left, y);
    RanksBin(low, temp.elem, l, z);
    assert AsideRanks(t, key) == Ranks(t.left) + (Ranks(temp.left) + AsideRanks(temp.right, key));
    assert DiveOf(temp, key) == Down(true, Size(temp.left), rest);
    assert DiveOf(t, key) == Down(true, Size(t.left), Down(true, Size(temp.left), rest));
    NewDouble(DiveOf(t, key), y, z);
    assert Split(t, key) == (Bin(low, temp.elem, l), Split(temp.right, key).1);
  }

  lemma {:induction false} DoubleRanksUpper(t: Tree, key: Key)
    requires t.Bin? && !(t.elem.key < key) && t.left.Bin? && !(t.left.elem.key < key)
    ensures SplitAccounted(t, key)
    decreases t, 0
  {
    var temp := t.left;
    var r, rest, low := Split(temp.left, key).1, DiveOf(temp.left, key), Bin(temp.right, t.elem, t.right);
    var y := Size(t.right) + 1 + Size(temp.right);
    var z := y + 1 + Part(rest, false);
    SplitRanks(temp.left, key);
    SplitSizes(temp.left, key);
    RanksBin(temp.right, t.elem, t.right, y);
    RanksBin(r, temp.elem, low, z);
    assert AsideRanks(t, key) == Ranks(t.right) + (Ranks(temp.right) + AsideRanks(temp.left, key));
    assert DiveOf(temp, key) == Down(false, Size(temp.right), rest);
    assert DiveOf(t, key) == Down(false, Size(t.right), Down(false, Size(temp.right), rest));
    NewDouble(DiveOf(t, key), y, z);
    assert Split(t, key) == (Split(temp.left, key).0, Bin(r, temp.elem, low));
  }

  /** One split, amortised, costs at most 3 + 6 floor(log2 n) comparisons. */
  lemma SplitCost(t: Tree, key: Key)
    requires t.Bin?
    ensures var (l, r) := Split(t, key);
            && Size(l) + Size(r) == Size(t)
            && SplitCmps(t, key) <= 3 + 3 * (Ranks(t) - Ranks(l) - Ranks(r) + 2 * Log2(Size(t)))
  {
    DiveMeasures(t, key);
    SplitRanks(t, key);
    SplitSizes(t, key);
    PartsWeigh(DiveOf(t, key), true);
    DiveCost(DiveOf(t, key));
  }

  /** The split compares each node that the failed search before it passed, once. */
  lemma {:induction false} MissIsSplit(t: Tree, key: Key, acc: Path)
    requires Seek(t, key, acc).0.Leaf?
    ensures SeekSteps(t, key) == SplitCmps(t, key)
  {
    if t.Bin? {
      if key < t.elem.key {
        var acc' := Lefter(t.elem, t.right, acc);
        if t.left.Bin? && !(t.left.elem.key < key) {
          MissIsSplit(t.left.left, key, Lefter(t.left.elem, t.left.right, acc'));
        } else {
          MissIsSplit(t.left, key, acc');
        }
      } else {
        var acc' := Righter(t.elem, t.left, acc);
        if t.right.Bin? && t.right.elem.key < key {
          MissIsSplit(t.right.right, key, Righter(t.right.elem, t.right.left, acc'));
        } else {
          MissIsSplit(t.right, key, acc');
        }
      }
    }
  }

  /** What an insertion compares is the depth of the place it finds. */
  lemma SplitDepth(t: Tree, key: Key)
    requires Ordered(t) && !HasKey(InOrder(t), key)
    ensures SplitCmps(t, key) == Depth(Seek(t, key, Top).1)
  {
    SeekFinds(t, key, Top);
    MissIsSplit(t, key, Top);
    SeekDepth(t, key, Top);
  }

  // ----- delete-min -----

  /** The nodes from the root down the left links. */
  function Spine(t: Tree): nat {
    if t.Leaf? then 0 else 1 + Spine(t.left)
  }

  /** The least node's subtree. */
  function Least(t: Tree): (u: Tree)
    requires t.Bin?
    ensures u.Bin?
  {
    if t.left.Leaf? then t else Least(t.left)
  }

  /** _sp_deq halves the way to the least node, which leaves its right subtree in its place. */
  lemma {:induction false} DeqHalves(t: Tree)
    requires t.Bin? && t.left.Bin?
    ensures DeqLeft(t).0 == Least(t).elem
    ensures Spine(DeqLeft(t).1) == (Spine(t) + 1) / 2 + Spine(Least(t).right)
    decreases t.left
  {
    var left := t.left;
    SpineStep(t);
    SpineStep(left);
    if left.left.Bin? {
      var far, low := left.left, Bin(left.left.right, left.elem, left.right);
      SpineStep(far);
      SpineStep(low);
      if far.left.Leaf? {
        SpineStep(Bin(low, t.elem, t.right));
      } else {
        var t' := Turned(left);
        SpineStep(t');
        DeqHalves(t');
        SpineStep(Bin(DeqLeft(t').1, t.elem, t.right));
      }
    } else {
      SpineStep(Bin(left.right, t.elem, t.right));
    }
  }

  lemma SpineStep(t: Tree)
    requires t.Bin?
    ensures Spine(t) == 1 + Spine(t.left) && (t.left.Leaf? ==> Spine(t.left) == 0)
    ensures Least(t) == if t.left.Leaf? then t else Least(t.left)
  {
  }

  /** The rotations of _sp_deq raise the rank sum by at most floor(log2 n). */
  lemma {:induction false} DeqLeftRanks(t: Tree)
    requires t.Bin? && t.left.Bin?
    ensures Ranks(DeqLeft(t).1) <= Ranks(t) + Log2(Size(t.left))
    ensures Size(DeqLeft(t).1) + 1 == Size(t)
    decreases t.left
  {
    hide Log2, Ranks;
    var left := t.left;
    var n, m := Size(left), Size(t);
    RanksBin(left, t.elem, t.right, m);
    RanksBin(left.left, left.elem, left.right, n);
    Log2Monotone(m - 1, m);
    if left.left.Leaf? {
      RanksBin(left.right, t.elem, t.right, m - 1);
    } else if left.left.left.Leaf? {
      TurnedRanks(left);
      var low := Bin(left.left.right, left.elem, left.right);
      RanksBin(low, t.elem, t.right, m - 1);
    } else {
      TurnedRanks(left);
      var t' := Turned(left);
      DeqLeftRanks(t');
      RanksBin(DeqLeft(t').1, t.elem, t.right, m - 1);
    }
  }

  /** The left spine's first two nodes, rotated. */
  function Turned(left: Tree): Tree
    requires left.Bin? && left.left.Bin?
  {
    Bin(left.left.left, left.left.elem, Bin(left.left.right, left.elem, left.right))
  }

  lemma TurnedRanks(left: Tree)
    requires left.Bin? && left.left.Bin?
    ensures var low := Bin(left.left.right, left.elem, left.right);
            && Size(Turned(left)) == Size(left) && Size(low) < Size(left)
            && Ranks(low) <= Ranks(left)
            && Ranks(Turned(left)) + Log2(Size(left.left.left)) <= Ranks(left) + Log2(Size(left))
  {
    hide Log2;
    var far := left.left;
    var n, f, k := Size(left), Size(far), Size(far.right) + 1 + Size(left.right);
    RanksBin(far, left.elem, left.right, n);
    RanksBin(far.left, far.elem, far.right, f);
    RanksBin(far.right, left.elem, left.right, k);
    RanksBin(far.left, far.elem, Bin(far.right, left.elem, left.right), n);
    Log2Monotone(k, n);
    Log2Monotone(Size(far.left), f);
  }

  lemma DeqRanks(t: Tree)
    requires t.Bin?
    ensures Ranks(Deq(t).1) <= Ranks(t) + Log2(Size(t))
    ensures Size(Deq(t).1) + 1 == Size(t)
  {
    RanksBin(t.left, t.elem, t.right, Size(t));
    if t.left.Bin? {
      DeqLeftRanks(t);
      Log2Monotone(Size(t.left), Size(t));
    }
  }

  lemma DeletedRanks(t: Tree)
    requires t.Bin?
    ensures Ranks(Deleted(t)) <= Ranks(t) + Log2(Size(t))
    ensures Size(Deleted(t)) + 1 == Size(t)
  {
    hide Log2, Ranks;
    var n := Size(t);
    RanksBin(t.left, t.elem, t.right, n);
    if t.right.Bin? {
      DeqRanks(t.right);
      RanksBin(t.left, Deq(t.right).0, Deq(t.right).1, n - 1);
      Log2Monotone(n - 1, n);
      Log2Monotone(Size(t.right), n);
    }
  }

  // ----- mixed runs -----

  datatype Op = Find(key: Key) | Install(key: Key, blk: Node) | Delete(key: Key)

  /** A deletion names a key that is there; sp_lookup and sp_install take any. */
  ghost predicate Enabled(t: Tree, op: Op) {
    op.Delete? ==> HasKey(InOrder(t), op.key)
  }

  function Done(t: Tree, op: Op): Tree {
    match op
    case Find(key) => LookedUp(t, key)
    case Install(key, blk) => Installed(t, key, blk)
    case Delete(key) => Removed(t, key)
  }

  /** What the operation adds to `lkpcmps`, `splayloops` and `enqcmps` together. */
  function Cost(t: Tree, op: Op): nat {
    match op
    case Find(key) => LookupCmps(t, key) + LookupLoops(t, key)
    case Install(key, _) =>
      LookupCmps(t, key) + LookupLoops(t, key) + (if Seek(t, key, Top).0.Bin? then 0 else SplitCmps(t, key))
    case Delete(key) => LookupLoops(t, key)
  }

  lemma DoneOrdered(t: Tree, op: Op)
    requires Ordered(t) && Enabled(t, op)
    ensures Ordered(Done(t, op)) && Size(Done(t, op)) <= Size(t) + 1
  {
    var u := Done(t, op);
    InOrderLength(t);
    InOrderLength(u);
    LookedUpInOrder(t, op.key);
    SeekFinds(t, op.key, Top);
    match op
    case Find(_) =>
    case Install(key, blk) => if !HasKey(InOrder(t), key) { InstalledInOrder(t, key, blk); }
    case Delete(key) => RemovedInOrder(t, key);
  }

  /** `cost` is covered by 24l + 7 and six times the fall of the rank sum. */
  ghost predicate Covered(cost: nat, t: Tree, t': Tree, l: nat) {
    cost + 6 * Ranks(t') <= 24 * l + 7 + 6 * Ranks(t)
  }

  lemma FindCovered(t: Tree, key: Key, l: nat)
    requires Seek(t, key, Top).0.Bin? && Log2(Size(t)) <= l
    ensures Covered(LookupCmps(t, key) + LookupLoops(t, key), t, LookedUp(t, key), l)
  {
    LookupCost(t, key);
  }

  lemma InstallCovered(t: Tree, key: Key, blk: Node, l: nat)
    requires Seek(t, key, Top).0.Leaf? && Log2(Size(t)) <= l && Log2(Size(t) + 1) <= l
    ensures Covered(LookupCmps(t, key) + SplitCmps(t, key), t, Installed(t, key, blk), l)
  {
    var (left, right) := Split(t, key);
    MissIsSplit(t, key, Top);
    if t.Bin? { SplitCost(t, key); }
    RanksBin(left, Elem(blk, key), right, Size(t) + 1);
  }

  lemma DeleteCovered(t: Tree, key: Key, l: nat)
    requires Seek(t, key, Top).0.Bin? && Log2(Size(t)) <= l
    ensures Covered(LookupLoops(t, key), t, Removed(t, key), l)
  {
    LookupCost(t, key);
    LookedUpInOrder(t, key);
    DeletedRanks(LookedUp(t, key));
  }

  /** What a look-up costs that misses. */
  function Missed(t: Tree, op: Op): nat {
    if op.Find? && Seek(t, op.key, Top).0.Leaf? then 1 + SeekSteps(t, op.key) else 0
  }

  lemma OpCovered(t: Tree, op: Op, l: nat)
    requires Ordered(t) && Enabled(t, op) && Log2(Size(t)) <= l && Log2(Size(t) + 1) <= l
    ensures Missed(t, op) <= Cost(t, op) && Covered(Cost(t, op) - Missed(t, op), t, Done(t, op), l)
  {
    SeekFinds(t, op.key, Top);
    match op
    case Find(key) =>
      if Seek(t, key, Top).0.Bin? { FindCovered(t, key, l); }
    case Install(key, blk) =>
      if Seek(t, key, Top).0.Bin? { FindCovered(t, key, l); } else { InstallCovered(t, key, blk, l); }
    case Delete(key) => DeleteCovered(t, key, l);
  }

  /** Every operation of the run is enabled when its turn comes. */
  ghost predicate RunEnabled(t: Tree, ops: seq<Op>)
    decreases |ops|
  {
    ops == [] || (Enabled(t, ops[0]) && RunEnabled(Done(t, ops[0]), ops[1..]))
  }

  function RunTree(t: Tree, ops: seq<Op>): Tree
    decreases |ops|
  {
    if ops == [] then t else RunTree(Done(t, ops[0]), ops[1..])
  }

  function RunCost(t: Tree, ops: seq<Op>): nat
    decreases |ops|
  {
    if ops == [] then 0 else Cost(t, ops[0]) + RunCost(Done(t, ops[0]), ops[1..])
  }

  /** The comparisons of the look-ups that miss. */
  function RunMissed(t: Tree, ops: seq<Op>): nat
    decreases |ops|
  {
    if ops == [] then 0 else Missed(t, ops[0]) + RunMissed(Done(t, ops[0]), ops[1..])
  }

  lemma {:induction false} RunCovered(t: Tree, ops: seq<Op>, n: nat, l: nat)
    requires Ordered(t) && RunEnabled(t, ops)
    requires Size(t) + |ops| <= n && l == Log2(n)
    ensures RunCost(t, ops) + 6 * Ranks(RunTree(t, ops)) <= |ops| * (24 * l + 7) + 6 * Ranks(t) + RunMissed(t, ops)
    decreases |ops|
  {
    if ops != [] {
      hide Cost, Done, Log2, Ranks, Missed, Ordered, Enabled;
      Log2Monotone(Size(t), n);
      Log2Monotone(Size(t) + 1, n);
      DoneOrdered(t, ops[0]);
      OpCovered(t, ops[0], l);
      RunCovered(Done(t, ops[0]), ops[1..], n, l);
      TimesSuccessor(|ops|, 24 * l + 7);
    }
  }

  /** Any m look-ups, installations and deletions, in any mix, starting from the
      empty tree of sp_init, raise the three counters together by at most
      m(24 floor(log2 m) + 7) and the comparisons of the look-ups that miss. */
  lemma {:induction false} MixedRunAmortised(ops: seq<Op>)
    requires RunEnabled(Leaf, ops)
    ensures RunCost(Leaf, ops) <= |ops| * (24 * Log2(|ops|) + 7) + RunMissed(Leaf, ops)
  {
    RunCovered(Leaf, ops, |ops|, Log2(|ops|));
  }

  lemma {:induction false} RunJoined(t: Tree, a: seq<Op>, b: seq<Op>)
    ensures var u := RunTree(t, a);
            && RunTree(t, a + b) == RunTree(u, b)
            && RunCost(t, a + b) == RunCost(t, a) + RunCost(u, b)
            && (RunEnabled(t, a + b) <==> RunEnabled(t, a) && RunEnabled(u, b))
    decreases |a|
  {
    hide Done, Cost, Enabled;
    if a == [] {
      assert a + b == b;
    } else {
      assert (a + b)[1..] == a[1..] + b;
      RunJoined(Done(t, a[0]), a[1..], b);
    }
  }

  lemma RunAppend(t: Tree, ops: seq<Op>, op: Op)
    ensures RunTree(t, ops + [op]) == Done(RunTree(t, ops), op)
  {
    RunJoined(t, ops, [op]);
    hide Done;
  }

  /** The runs of one operation. */
  lemma FindRun(t: Tree, key: Key)
    ensures var ops := [Find(key)];
            && RunEnabled(t, ops) && RunTree(t, ops) == LookedUp(t, key)
            && RunCost(t, ops) == LookupCmps(t, key) + LookupLoops(t, key)
  {
    hide LookedUp, LookupCmps, LookupLoops;
    OneRun(t, Find(key));
  }

  lemma InstallRun(t: Tree, key: Key, n: Node)
    requires Ordered(t)
    ensures var ops, cmps := [Install(key, n)], if HasKey(InOrder(t), key) then 0 else SplitCmps(t, key);
            && RunEnabled(t, ops) && RunTree(t, ops) == Installed(t, key, n)
            && RunCost(t, ops) == LookupCmps(t, key) + LookupLoops(t, key) + cmps
  {
    SeekFinds(t, key, Top);
    hide Installed, LookupCmps, LookupLoops, SplitCmps;
    OneRun(t, Install(key, n));
  }

  lemma DeleteRun(t: Tree, key: Key)
    requires HasKey(InOrder(t), key)
    ensures var ops := [Delete(key)];
            && RunEnabled(t, ops) && RunTree(t, ops) == Removed(t, key) && RunCost(t, ops) == LookupLoops(t, key)
  {
    hide Removed, LookupLoops;
    OneRun(t, Delete(key));
  }

  lemma OneRun(t: Tree, op: Op)
    ensures var ops := [op];
            RunTree(t, ops) == Done(t, op) && RunCost(t, ops) == Cost(t, op) && (RunEnabled(t, ops) <==> Enabled(t, op))
  {
    hide Done, Cost, Enabled;
    assert [op][1..] == [];
  }

  // ----- failed look-ups do not keep the promise -----

  /** No node twice. */
  predicate Different(blks: seq<Node>) {
    forall i, j :: 0 <= i < j < |blks| ==> blks[i] != blks[j]
  }

  /** Install 1, 2, ..., n in this order, in nodes of their own. */
  function Climbing(blks: seq<Node>): seq<Op>
    requires |blks| < 0x1_0000_0000
  {
    if blks == [] then [] else Climbing(blks[..|blks| - 1]) + [Install(|blks|, blks[|blks| - 1])]
  }

  /** The left chain that leaves. */
  function Chain(blks: seq<Node>): Tree
    requires |blks| < 0x1_0000_0000
  {
    if blks == [] then Leaf else Bin(Chain(blks[..|blks| - 1]), Elem(blks[|blks| - 1], |blks|), Leaf)
  }

  lemma {:induction false} ClimbingMakesChain(blks: seq<Node>)
    requires |blks| < 0x1_0000_0000
    ensures RunTree(Leaf, Climbing(blks)) == Chain(blks)
    ensures Size(Chain(blks)) == |blks|
    decreases |blks|
  {
    if blks != [] {
      var n, rest := |blks|, blks[..|blks| - 1];
      ClimbingMakesChain(rest);
      RunAppend(Leaf, Climbing(rest), Install(n, blks[n - 1]));
      var t := Chain(rest);
      assert Split(t, n) == (t, Leaf) && Seek(t, n, Top).0.Leaf?;
      assert Done(t, Install(n, blks[n - 1])) == Chain(blks);
    }
  }

  /** The chain is a tree that the installations can make: no node in it twice, and ordered. */
  lemma {:induction false} ChainDistinct(blks: seq<Node>)
    requires |blks| < 0x1_0000_0000 && Different(blks)
    ensures Distinct(Chain(blks)) && forall x :: x in Nodes(Chain(blks)) <==> x in blks
    decreases |blks|
  {
    if blks != [] {
      var rest := blks[..|blks| - 1];
      ChainDistinct(rest);
      assert blks == rest + [blks[|blks| - 1]];
    }
  }

  lemma {:induction false} ChainInOrder(blks: seq<Node>)
    requires |blks| < 0x1_0000_0000
    ensures var s := InOrder(Chain(blks)); |s| == |blks| && forall i :: 0 <= i < |s| ==> s[i].key == i + 1
    ensures Ordered(Chain(blks))
    decreases |blks|
  {
    if blks != [] {
      ChainInOrder(blks[..|blks| - 1]);
      assert InOrder(Chain(blks)) == InOrder(Chain(blks[..|blks| - 1])) + [Elem(blks[|blks| - 1], |blks|)];
    }
  }

  lemma {:induction false} ChainMiss(blks: seq<Node>, acc: Path)
    requires |blks| < 0x1_0000_0000
    ensures Seek(Chain(blks), 0, acc).0.Leaf? && SeekSteps(Chain(blks), 0) == |blks|
    decreases |blks|
  {
    if blks != [] { ChainMiss(blks[..|blks| - 1], Lefter(Elem(blks[|blks| - 1], |blks|), Leaf, acc)); }
  }

  lemma TimesSuccessor(m: nat, k: nat)
    requires m > 0
    ensures m * k == k + (m - 1) * k
  {
  }

  /** Searching for a key that is not there, over and over, leaves any tree as it is and compares
      the whole way down every time. */
  lemma {:induction false} MissesRepeat(t: Tree, key: Key, m: nat)
    requires Seek(t, key, Top).0.Leaf?
    ensures LookupRun(t, seq(m, _ => key)) == (t, 0, m * (1 + SeekSteps(t, key)))
    decreases m
  {
    var keys := seq(m, _ => key);
    if m > 0 {
      MissesRepeat(t, key, m - 1);
      assert keys[1..] == seq(m - 1, _ => key);
      assert LookedUp(t, keys[0]) == t && LookupLoops(t, keys[0]) == 0;
      assert LookupCmps(t, keys[0]) == 1 + SeekSteps(t, key);
      hide Seek, SeekSteps, LookedUp, LookupLoops, LookupCmps;
      TimesSuccessor(m, 1 + SeekSteps(t, key));
    }
  }

  /** m comparisons of w each stay within the promise for m look-ups. */
  predicate Promised(m: nat, w: nat, n: nat, l: nat) { m * w <= m + 2 * Bound(m, n, l) }

  lemma PromiseKept(m: nat, w: nat, n: nat, l: nat)
    requires w <= 12 * l + 3
    ensures Promised(m, w, n, l)
  {
    PromiseIs(m, n, l);
    TimesMonotone(m, w, 12 * l + 3);
  }

  lemma PromiseBroken(w: nat, n: nat, l: nat)
    requires w > 12 * l + 3
    ensures !Promised(4 * (n * l) + 1, w, n, l)
  {
    var m := 4 * (n * l) + 1;
    PromiseIs(m, n, l);
    TimesMonotone(m, 12 * l + 4, w);
    TimesAdd(m, 12 * l + 3);
  }

  lemma PromiseIs(m: nat, n: nat, l: nat)
    ensures m + 2 * Bound(m, n, l) == m * (12 * l + 3) + 4 * (n * l)
  {
    assert m * (12 * l + 3) == m + 2 * (m * (6 * l + 1));
  }

  lemma TimesMonotone(m: nat, a: nat, b: nat)
    requires a <= b
    ensures m * a <= m * b
  {
  }

  lemma TimesAdd(m: nat, a: nat)
    ensures m * (a + 1) == m * a + m
  {
  }

  /** m searches for the key compare no more often than is promised for m look-ups. */
  ghost predicate WithinPromise(t: Tree, key: Key, m: nat) {
    LookupRun(t, seq(m, _ => key)).2 <= m + 2 * Bound(m, Size(t), Log2(Size(t)))
  }

  lemma WithinIs(t: Tree, key: Key, m: nat)
    requires Seek(t, key, Top).0.Leaf?
    ensures WithinPromise(t, key, m) <==> Promised(m, 1 + SeekSteps(t, key), Size(t), Log2(Size(t)))
  {
    hide LookupRun, Seek, SeekSteps, Size, Log2, Bound;
    MissesRepeat(t, key, m);
  }

  /** The exact condition: searches for an absent key stay within what is promised for look-ups, however
      many they are, if and only if one of them compares at most 12L + 3 times. */
  lemma MissesWithinPromise(t: Tree, key: Key)
    requires Ordered(t) && !HasKey(InOrder(t), key)
    ensures (forall m: nat :: WithinPromise(t, key, m)) <==> 1 + SeekSteps(t, key) <= 12 * Log2(Size(t)) + 3
  {
    hide *;
    var w, n, l := 1 + SeekSteps(t, key), Size(t), Log2(Size(t));
    SeekFinds(t, key, Top);
    if w <= 12 * l + 3 {
      forall m: nat ensures WithinPromise(t, key, m) {
        WithinIs(t, key, m);
        PromiseKept(m, w, n, l);
      }
    } else {
      PromiseBroken(w, n, l);
      WithinIs(t, key, 4 * (n * l) + 1);
    }
  }

  /** A look-up of an absent key does not splay, so it is not amortised: after
      n installations, in any n different nodes, every search for key 0
      compares n + 1 times, for ever. */
  lemma MissesNotAmortised(blks: seq<Node>, m: nat)
    requires |blks| < 0x1_0000_0000 && Different(blks)
    ensures var t := RunTree(Leaf, Climbing(blks));
            && Size(t) == |blks| && Ordered(t) && Distinct(t)
            && LookupRun(t, seq(m, _ => 0)) == (t, 0, m * (|blks| + 1))
  {
    ClimbingMakesChain(blks);
    ChainDistinct(blks);
    ChainInOrder(blks);
    ChainMiss(blks, Top);
    MissesRepeat(Chain(blks), 0, m);
  }
}
