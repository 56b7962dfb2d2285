/** src/spsymbol.c: strings interned in a splay tree keyed by their hash, with
    a chain of entries under each key for the strings that collide. */
module Symbols {
  import opened SplayTrees
  import opened SplayLinks
  import opened SplayPool
  import opened SplayHeap

  type Byte = b: int | 0 <= b < 256

  type Name = seq<Byte>

  /** A `const void *` argument with its length. */
  datatype Mem = Null | Bytes(name: Name)

  /** struct syment; the name with its length is one value. */
  class Syment {
    var next: Syment?
    const name: Name

    constructor (name: Name)
      ensures this.name == name && next == null
    {
      this.name := name;
      next := null;
    }
  }

  ghost function Following(c: seq<Syment>, i: nat): Syment? {
    if i + 1 < |c| then c[i + 1] else null
  }

  /** `c` is the chain from `head`, each entry once. */
  ghost predicate Chained(c: seq<Syment>, head: object?)
    reads c`next
  {
    && c != [] && head == c[0]
    && (forall i {:trigger c[i].next} :: 0 <= i < |c| ==> c[i].next == Following(c, i))
    && (forall i, j :: 0 <= i < j < |c| ==> c[i] != c[j])
  }

  /** Chains of entries under tree nodes, as a value: `key` is each node's key. */
  datatype Chains = Chains(at: map<Node, seq<Syment>>, key: map<Node, Key>)

  /** The chains hold exactly the table, each name once, under its hash. */
  ghost predicate Hold(c: Chains, table: map<Name, Syment>, hash: Name -> Key) {
    && c.key.Keys == c.at.Keys
    && (forall n, m :: n in c.at && m in c.at && c.key[n] == c.key[m] ==> n == m)
    && (forall n, i :: n in c.at && 0 <= i < |c.at[n]| ==> Fits(c.at[n][i], c.key[n], table, hash))
    && (forall s :: s in table ==> Held(s, c, table, hash))
  }

  ghost predicate Fits(x: Syment, key: Key, table: map<Name, Syment>, hash: Name -> Key) {
    x.name in table && table[x.name] == x && hash(x.name) == key
  }

  ghost predicate Held(s: Name, c: Chains, table: map<Name, Syment>, hash: Name -> Key)
    requires s in table && c.key.Keys == c.at.Keys
  {
    table[s].name == s && exists n :: n in c.at && c.key[n] == hash(s) && table[s] in c.at[n]
  }

  lemma EmptyHolds(hash: Name -> Key)
    ensures Hold(Chains(map[], map[]), map[], hash)
  {
  }

  lemma HoldAppended(c: Chains, table: map<Name, Syment>, hash: Name -> Key, n: Node, x: Syment)
    requires Hold(c, table, hash) && n in c.at && c.key[n] == hash(x.name) && x.name !in table
    ensures Hold(c.(at := c.at[n := c.at[n] + [x]]), table[x.name := x], hash)
  {
    var c', table' := c.(at := c.at[n := c.at[n] + [x]]), table[x.name := x];
    forall s | s in table' ensures Held(s, c', table', hash) {
      if s == x.name {
        assert c'.at[n][|c.at[n]|] == x;
      } else {
        assert Held(s, c, table, hash);
        var m :| m in c.at && c.key[m] == hash(s) && table[s] in c.at[m];
        assert table'[s] in c'.at[m];
      }
    }
    forall m, i | m in c'.at && 0 <= i < |c'.at[m]| ensures Fits(c'.at[m][i], c'.key[m], table', hash) {
      if m != n || i < |c.at[n]| { assert Fits(c.at[m][i], c.key[m], table, hash); }
    }
  }

  lemma HoldAdded(c: Chains, table: map<Name, Syment>, hash: Name -> Key, n: Node, x: Syment)
    requires Hold(c, table, hash) && n !in c.at && x.name !in table
    requires forall m :: m in c.at ==> c.key[m] != hash(x.name)
    ensures Hold(Chains(c.at[n := [x]], c.key[n := hash(x.name)]), table[x.name := x], hash)
  {
    var c', table' := Chains(c.at[n := [x]], c.key[n := hash(x.name)]), table[x.name := x];
    forall s | s in table' ensures Held(s, c', table', hash) {
      if s == x.name {
        assert c'.at[n][0] == x;
      } else {
        assert Held(s, c, table, hash);
        var m :| m in c.at && c.key[m] == hash(s) && table[s] in c.at[m];
        assert table'[s] in c'.at[m];
      }
    }
    forall m, i | m in c'.at && 0 <= i < |c'.at[m]| ensures Fits(c'.at[m][i], c'.key[m], table', hash) {
      if m != n { assert Fits(c.at[m][i], c.key[m], table, hash); }
    }
  }

  /** Entry `k` of the chain under `n` taken out; an empty chain takes its node along. */
  ghost function Without(c: Chains, n: Node, k: nat): Chains
    requires n in c.at && k < |c.at[n]|
  {
    var rest := c.at[n][..k] + c.at[n][k + 1..];
    if rest == [] then Chains(c.at - {n}, c.key - {n}) else c.(at := c.at[n := rest])
  }

  lemma HoldRemoved(c: Chains, table: map<Name, Syment>, hash: Name -> Key, n: Node, k: nat)
    requires Hold(c, table, hash) && n in c.at && k < |c.at[n]|
    requires forall i, j :: 0 <= i < j < |c.at[n]| ==> c.at[n][i] != c.at[n][j]
    ensures Hold(Without(c, n, k), table - {c.at[n][k].name}, hash)
  {
    var c', x := Without(c, n, k), c.at[n][k];
    var table' := table - {x.name};
    assert Fits(x, c.key[n], table, hash);
    forall s | s in table' ensures Held(s, c', table', hash) {
      HeldWithout(c, table, hash, n, k, s);
    }
    forall m, i | m in c'.at && 0 <= i < |c'.at[m]| ensures Fits(c'.at[m][i], c'.key[m], table', hash) {
      if m == n {
        var rest, j := c.at[n][..k] + c.at[n][k + 1..], if i < k then i else i + 1;
        assert rest[i] == c.at[n][j] && Fits(c.at[n][j], c.key[n], table, hash);
      } else {
        assert Fits(c.at[m][i], c.key[m], table, hash);
        assert c.key[m] != c.key[n];
      }
    }
  }

  lemma HeldWithout(c: Chains, table: map<Name, Syment>, hash: Name -> Key, n: Node, k: nat, s: Name)
    requires Hold(c, table, hash) && n in c.at && k < |c.at[n]|
    requires Fits(c.at[n][k], c.key[n], table, hash) && s in table && s != c.at[n][k].name
    ensures Held(s, Without(c, n, k), table - {c.at[n][k].name}, hash)
  {
    var c', rest := Without(c, n, k), c.at[n][..k] + c.at[n][k + 1..];
    assert Held(s, c, table, hash);
    hide Fits;
    var m :| m in c.at && c.key[m] == hash(s) && table[s] in c.at[m];
    if m == n {
      var i :| 0 <= i < |c.at[n]| && c.at[n][i] == table[s];
      assert rest[if i < k then i else i - 1] == table[s];
    }
    assert m in c'.at && table[s] in c'.at[m];
  }

  /** Distinct names have distinct ids, and an id tells its name, hash collisions or not. */
  lemma IdsDistinct(c: Chains, table: map<Name, Syment>, hash: Name -> Key)
    requires Hold(c, table, hash)
    ensures forall s :: s in table ==> table[s].name == s
    ensures forall s, t :: s in table && t in table && table[s] == table[t] ==> s == t
  {
    forall s | s in table ensures table[s].name == s {
      assert Held(s, c, table, hash);
    }
  }

  /** What the operations make of the table: `Intern(x)` would enter `x` as a new id. */
  datatype Op = Intern(x: Syment) | Lookup(name: Name) | Free(name: Name) | Nothing

  ghost function Ran(table: map<Name, Syment>, ops: seq<Op>): map<Name, Syment> {
    if ops == [] then table
    else
      var t := Ran(table, ops[..|ops| - 1]);
      match ops[|ops| - 1]
      case Intern(x) => if x.name in t then t else t[x.name := x]
      case Lookup(_) => t
      case Free(name) => t - {name}
      case Nothing => t
  }

  /** A client's call of one of the operations. */
  datatype Request = ToIntern(m: Mem) | ToLookup(m: Mem) | ToFree(m: Mem)

  /** The answer to a request on a table, and the operation it came to. */
  ghost predicate Answer(t: map<Name, Syment>, q: Request, id: Syment?, op: Op) {
    if q.m.Null? then id == null && op == Nothing
    else if q.ToIntern? then
      && id != null && op == Intern(id) && id.name == q.m.name
      && if q.m.name in t then id == t[q.m.name] else id !in t.Values
    else if q.ToLookup? then
      op == Lookup(q.m.name) && id == if q.m.name in t then t[q.m.name] else null
    else op == Free(q.m.name) && id == null
  }

  /** A run of requests from a table, each answered on what the ones before it left. */
  ghost predicate Answers(table: map<Name, Syment>, requests: seq<Request>, ids: seq<Syment?>, ops: seq<Op>) {
    && |ids| == |ops| == |requests|
    && forall i :: 0 <= i < |ops| ==> Answer(Ran(table, ops[..i]), requests[i], ids[i], ops[i])
  }

  /** Interning a name, or looking it up, with this outcome. */
  predicate Names(q: Request, id: Syment?, s: Name) {
    (q.ToIntern? || q.ToLookup?) && q.m == Bytes(s) && id != null
  }

  /** An id stays until its own name is freed; interning again returns it. */
  lemma {:induction false} IdStable(table: map<Name, Syment>, ops: seq<Op>, s: Name)
    requires s in table && Free(s) !in ops
    ensures s in Ran(table, ops) && Ran(table, ops)[s] == table[s]
    decreases |ops|
  {
    if ops != [] {
      assert ops[|ops| - 1] in ops;
      IdStable(table, ops[..|ops| - 1], s);
    }
  }

  /** A name is in the table just when it was interned and not freed since. */
  lemma {:induction false} InternedNotFreed(ops: seq<Op>, s: Name)
    ensures s in Ran(map[], ops) <==>
      exists i :: 0 <= i < |ops| && ops[i].Intern? && ops[i].x.name == s && Free(s) !in ops[i..]
    decreases |ops|
  {
    if ops != [] {
      var m := |ops| - 1;
      var last, rest := ops[m], ops[..m];
      InternedNotFreed(rest, s);
      if last == Free(s) {
        assert forall i :: 0 <= i < |ops| ==> ops[i..][m - i] == last;
      } else if last.Intern? && last.x.name == s {
        assert Free(s) !in ops[m..];
      } else {
        forall i | 0 <= i < m ensures Free(s) in ops[i..] <==> Free(s) in rest[i..] {
          assert ops[i..] == rest[i..] + [last];
        }
      }
    }
  }

  lemma {:induction false} RanOn(table: map<Name, Syment>, a: seq<Op>, b: seq<Op>)
    ensures Ran(table, a + b) == Ran(Ran(table, a), b)
    decreases |b|
  {
    if b == [] {
      assert a + b == a;
    } else {
      var rest := b[..|b| - 1];
      assert (a + b)[..|a + b| - 1] == a + rest;
      RanOn(table, a, rest);
    }
  }

  /** The name is in the table after a request that named it, under the id it got. */
  lemma NamedIn(table: map<Name, Syment>, requests: seq<Request>, ids: seq<Syment?>, ops: seq<Op>, i: nat, s: Name)
    requires Answers(table, requests, ids, ops) && i < |ids| && Names(requests[i], ids[i], s)
    ensures s in Ran(table, ops[..i + 1]) && Ran(table, ops[..i + 1])[s] == ids[i]
  {
    var before := ops[..i + 1];
    assert before[..|before| - 1] == ops[..i];
    assert Answer(Ran(table, ops[..i]), requests[i], ids[i], ops[i]);
  }

  /** In a run of the operations, a name keeps its id until it is freed: every later
      request that names it, interning or looking up, gets the same one. */
  lemma RunStable(table: map<Name, Syment>, requests: seq<Request>, ids: seq<Syment?>, ops: seq<Op>, s: Name, i: nat,
          j: nat)
    requires Answers(table, requests, ids, ops) && i < j < |ids|
    requires Names(requests[i], ids[i], s) && (requests[j] == ToIntern(Bytes(s)) || requests[j] == ToLookup(Bytes(s)))
    requires ToFree(Bytes(s)) !in requests[i..j]
    ensures ids[j] == ids[i]
  {
    hide Ran, Names;
    NamedIn(table, requests, ids, ops, i, s);
    var mid := ops[i + 1..j];
    assert ops[..j] == ops[..i + 1] + mid;
    RanOn(table, ops[..i + 1], mid);
    assert Free(s) !in mid by { NotFreed(table, requests, ids, ops, s, i, j); }
    IdStable(Ran(table, ops[..i + 1]), mid, s);
    assert Answer(Ran(table, ops[..j]), requests[j], ids[j], ops[j]);
  }

  lemma NotFreed(table: map<Name, Syment>, requests: seq<Request>, ids: seq<Syment?>, ops: seq<Op>, s: Name, i: nat,
          j: nat)
    requires Answers(table, requests, ids, ops) && i < j < |ids| && ToFree(Bytes(s)) !in requests[i..j]
    ensures Free(s) !in ops[i + 1..j]
  {
    hide Ran;
    forall k | i < k < j ensures ops[k] != Free(s) {
      assert Answer(Ran(table, ops[..k]), requests[k], ids[k], ops[k]);
      assert requests[i..j][k - i] == requests[k];
    }
  }

  /** From an empty table, a look-up finds a name just when it was interned and not freed since. */
  lemma RunFinds(requests: seq<Request>, ids: seq<Syment?>, ops: seq<Op>, s: Name, j: nat)
    requires Answers(map[], requests, ids, ops) && j < |ids| && requests[j] == ToLookup(Bytes(s))
    ensures ids[j] != null <==>
      exists i :: 0 <= i < j && requests[i] == ToIntern(Bytes(s)) && ToFree(Bytes(s)) !in requests[i..j]
  {
    var before := ops[..j];
    InternedNotFreed(before, s);
    assert Answer(Ran(map[], before), requests[j], ids[j], ops[j]);
    forall i | 0 <= i < j
      ensures (before[i].Intern? && before[i].x.name == s) <==> requests[i] == ToIntern(Bytes(s))
      ensures Free(s) in before[i..] <==> ToFree(Bytes(s)) in requests[i..j]
    {
      SameFrees(requests, ids, ops, s, i, j);
      assert Answer(Ran(map[], ops[..i]), requests[i], ids[i], ops[i]);
    }
  }

  lemma SameFrees(requests: seq<Request>, ids: seq<Syment?>, ops: seq<Op>, s: Name, i: nat, j: nat)
    requires Answers(map[], requests, ids, ops) && i < j < |ids|
    ensures Free(s) in ops[..j][i..] <==> ToFree(Bytes(s)) in requests[i..j]
  {
    forall k | i <= k < j ensures ops[k] == Free(s) <==> requests[k] == ToFree(Bytes(s)) {
      assert Answer(Ran(map[], ops[..k]), requests[k], ids[k], ops[k]);
    }
    forall k | i <= k < j ensures ops[..j][i..][k - i] == ops[k] && requests[i..j][k - i] == requests[k] {
    }
    if Free(s) in ops[..j][i..] {
      var k :| 0 <= k < j - i && ops[..j][i..][k] == Free(s);
      assert requests[i..j][k] == requests[i + k];
    }
    if ToFree(Bytes(s)) in requests[i..j] {
      var k :| 0 <= k < j - i && requests[i..j][k] == ToFree(Bytes(s));
      assert ops[..j][i..][k] == ops[i + k];
    }
  }

  /** In a run of the operations, an id tells its name, so distinct names get distinct
      ids, and a name that is interned anew gets an id that no other name has. */
  lemma RunDistinct(table: map<Name, Syment>, requests: seq<Request>, ids: seq<Syment?>, ops: seq<Op>, i: nat, j: nat,
          s: Name, t: Name)
    requires Answers(table, requests, ids, ops) && i < |ids| && j < |ids|
    requires forall u :: u in table ==> table[u].name == u
    requires Names(requests[i], ids[i], s) && Names(requests[j], ids[j], t)
    ensures ids[i] == ids[j] ==> s == t
    ensures requests[i].ToIntern? && s !in Ran(table, ops[..i]) ==> ids[i] !in Ran(table, ops[..i]).Values
  {
    RanNames(table, ops[..i]);
    RanNames(table, ops[..j]);
    assert Answer(Ran(table, ops[..i]), requests[i], ids[i], ops[i]);
    assert Answer(Ran(table, ops[..j]), requests[j], ids[j], ops[j]);
  }

  lemma {:induction false} RanNames(table: map<Name, Syment>, ops: seq<Op>)
    requires forall u :: u in table ==> table[u].name == u
    ensures forall u :: u in Ran(table, ops) ==> Ran(table, ops)[u].name == u
    decreases |ops|
  {
    if ops != [] { RanNames(table, ops[..|ops| - 1]); }
  }

  lemma Answered(t: map<Name, Syment>, u: map<Name, Syment>, q: Request, id: Syment?, op: Op)
    requires if q.m.Null? then op == Nothing && id == null && u == t
             else if q.ToIntern? then
               && id != null && op == Intern(id) && id.name == q.m.name
               && if q.m.name in t then u == t && id == t[q.m.name] else u == t[q.m.name := id] && id !in t.Values
             else if q.ToLookup? then op == Lookup(q.m.name) && u == t
                     && id == if q.m.name in t then t[q.m.name] else null
             else op == Free(q.m.name) && u == t - {q.m.name} && id == null
    ensures Answer(t, q, id, op) && u == Ran(t, [op])
  {
    assert [op][..0] == [] && Ran(t, []) == t;
  }

  lemma AnswersMore(table: map<Name, Syment>, requests: seq<Request>, ids: seq<Syment?>, ops: seq<Op>, i: nat,
          id: Syment?, op: Op)
    requires i < |requests| && Answers(table, requests[..i], ids, ops) && Answer(Ran(table, ops), requests[i], id, op)
    ensures Answers(table, requests[..i + 1], ids + [id], ops + [op])
  {
    forall k | 0 <= k <= i
      ensures Answer(Ran(table, (ops + [op])[..k]), requests[..i + 1][k], (ids + [id])[k], (ops + [op])[k])
    {
      assert (ops + [op])[..k] == ops[..k];
      if k == i { assert ops[..k] == ops; } else { assert requests[..i + 1][k] == requests[..i][k]; }
    }
  }

  /** Chains of different nodes share no entry. */
  lemma ChainsApart(c: Chains, table: map<Name, Syment>, hash: Name -> Key, n: Node, m: Node, i: nat, j: nat)
    requires Hold(c, table, hash) && n in c.at && m in c.at && n != m && i < |c.at[n]| && j < |c.at[m]|
    ensures c.at[n][i] != c.at[m][j]
  {
    assert Fits(c.at[n][i], c.key[n], table, hash) && Fits(c.at[m][j], c.key[m], table, hash);
  }

  function EntriesOf(at: map<Node, seq<Syment>>): set<Syment> {
    set n, i | n in at && 0 <= i < |at[n]| :: at[n][i]
  }

  /** The heap holds the chains: keys, heads and links. */
  ghost predicate OnHeap(c: Chains)
    reads c.at.Keys`key, c.at.Keys`data, EntriesOf(c.at)`next
  {
    c.key.Keys == c.at.Keys && forall n :: n in c.at ==> NodeFits(n, c.at[n], c.key[n])
  }

  ghost predicate NodeFits(n: Node, c: seq<Syment>, key: Key)
    reads n`key, n`data, c`next
  {
    n.key == key && Chained(c, n.data)
  }

  /** Chains whose fields are left alone stay on the heap. */
  twostate lemma ChainsStay(c: Chains)
    requires old(OnHeap(c))
    requires forall n <- c.at.Keys :: n.key == old(n.key) && n.data == old(n.data)
    requires forall x <- EntriesOf(c.at) :: x.next == old(x.next)
    ensures OnHeap(c)
  {
    forall n | n in c.at ensures NodeFits(n, c.at[n], c.key[n]) {
      assert old(NodeFits(n, c.at[n], c.key[n]));
    }
  }

  lemma EntriesAllocated(c: Chains)
    ensures forall x <- EntriesOf(c.at) :: allocated(x)
  {
  }

  ghost predicate Once<T>(s: seq<T>) {
    forall i, j :: 0 <= i < j < |s| ==> s[i] != s[j]
  }

  /** The chains of the nodes, one after the other. */
  ghost function Flat(nodes: seq<Node>, at: map<Node, seq<Syment>>): seq<Syment>
    requires forall n :: n in nodes ==> n in at
  {
    if nodes == [] then [] else Flat(nodes[..|nodes| - 1], at) + at[nodes[|nodes| - 1]]
  }

  lemma FlatStep(nodes: seq<Node>, i: nat, at: map<Node, seq<Syment>>)
    requires i < |nodes| && forall n :: n in nodes ==> n in at
    ensures Flat(nodes[..i + 1], at) == Flat(nodes[..i], at) + at[nodes[i]]
  {
    assert nodes[..i + 1][..i] == nodes[..i];
  }

  lemma VisitedOnce(t: Tree, visited: seq<Node>)
    requires Distinct(t) && visited == NodeSeq(InOrder(t))[0..]
    ensures Once(visited) && forall n :: n in visited <==> n in Nodes(t)
  {
    DistinctNoRepeat(t);
    forall n | n in visited ensures n in Nodes(t) {
      var i :| 0 <= i < |visited| && visited[i] == n;
      InOrderAt(t, i);
    }
    forall n | n in Nodes(t) ensures n in visited {
      var i := NodeAt(t, n);
      assert visited[i] == n;
    }
  }

  lemma AllFreed(visited: seq<Node>, c: Chains, table: map<Name, Syment>, hash: Name -> Key)
    requires Hold(c, table, hash) && OnHeap(c) && Once(visited) && forall n :: n in visited <==> n in c.at
    ensures Once(Flat(visited, c.at)) && forall x :: x in Flat(visited, c.at) <==> x in table.Values
  {
    forall n | n in c.at ensures Once(c.at[n]) {
      assert NodeFits(n, c.at[n], c.key[n]);
    }
    FlatOnce(visited, c, table, hash);
    EntriesInTable(c, table, hash);
    forall x ensures x in Flat(visited, c.at) <==> x in EntriesOf(c.at) {
    }
  }

  ghost predicate InSome(x: Syment, nodes: seq<Node>, at: map<Node, seq<Syment>>)
    requires forall n :: n in nodes ==> n in at
  {
    exists n :: n in nodes && x in at[n]
  }

  /** Over all nodes, the chains hold each entry once. */
  lemma {:induction false} FlatOnce(nodes: seq<Node>, c: Chains, table: map<Name, Syment>, hash: Name -> Key)
    requires Hold(c, table, hash) && Once(nodes) && forall n :: n in nodes ==> n in c.at
    requires forall n :: n in c.at ==> Once(c.at[n])
    ensures Once(Flat(nodes, c.at))
    ensures forall x :: x in Flat(nodes, c.at) <==> InSome(x, nodes, c.at)
    decreases |nodes|
  {
    if nodes != [] {
      var last, rest := nodes[|nodes| - 1], nodes[..|nodes| - 1];
      assert nodes == rest + [last];
      FlatOnce(rest, c, table, hash);
      forall x | x in Flat(rest, c.at) ensures x !in c.at[last] {
        assert InSome(x, rest, c.at);
        var n :| n in rest && x in c.at[n];
        var i :| 0 <= i < |c.at[n]| && c.at[n][i] == x;
        OtherChains(c, table, hash, n, i);
      }
    }
  }

  /** The new entry goes behind the last one of a chain. */
  method LinkLast(pe: Syment, se: Syment, ghost c: seq<Syment>, ghost head: object?)
    requires Chained(c, head) && pe == c[|c| - 1] && se !in c && se.next == null
    modifies pe`next
    ensures Chained(c + [se], head)
  {
    pe.next := se;
    ghost var d := c + [se];
    forall i | 0 <= i < |d| ensures d[i].next == Following(d, i) {
      if i + 1 < |c| { assert d[i] == c[i] && d[i + 1] == c[i + 1]; }
    }
  }

  /** The entry before, or the node if there is none, points past the entry. */
  method UnlinkEntry(spl: Node, se: Syment, pe: Syment?, ghost c: seq<Syment>, ghost k: nat)
    requires Chained(c, spl.data) && k < |c| && se == c[k] && pe == if k > 0 then c[k - 1] else null
    modifies spl`data, c`next
    ensures |c| > 1 ==> Chained(c[..k] + c[k + 1..], spl.data)
    ensures |c| == 1 ==> spl.data == null
  {
    assert c[k].next == Following(c, k);
    if pe != null {
      pe.next := se.next;
    } else {
      spl.data := se.next;
    }
    ghost var d := c[..k] + c[k + 1..];
    forall i | 0 <= i < |d| ensures d[i].next == Following(d, i) {
      var j := if i < k then i else i + 1;
      assert d[i] == c[j] && old(c[j].next) == Following(c, j);
    }
  }

  /** The entry of one chain is in no other. */
  lemma OtherChains(c: Chains, table: map<Name, Syment>, hash: Name -> Key, spl: Node, j: nat)
    requires Hold(c, table, hash) && spl in c.at && j < |c.at[spl]|
    ensures forall n :: n in c.at && n != spl ==> c.at[spl][j] !in c.at[n]
  {
    forall n | n in c.at && n != spl ensures c.at[spl][j] !in c.at[n] {
      forall i | 0 <= i < |c.at[n]| ensures c.at[n][i] != c.at[spl][j] {
        ChainsApart(c, table, hash, n, spl, i, j);
      }
    }
  }

  lemma AllChainsApart(c: Chains, table: map<Name, Syment>, hash: Name -> Key, spl: Node)
    requires Hold(c, table, hash) && spl in c.at
    ensures forall n, i :: n in c.at && n != spl && 0 <= i < |c.at[spl]| ==> c.at[spl][i] !in c.at[n]
  {
    forall i | 0 <= i < |c.at[spl]| ensures forall n :: n in c.at && n != spl ==> c.at[spl][i] !in c.at[n] {
      OtherChains(c, table, hash, spl, i);
    }
  }

  lemma EntriesInTable(c: Chains, table: map<Name, Syment>, hash: Name -> Key)
    requires Hold(c, table, hash)
    ensures EntriesOf(c.at) == table.Values
  {
    forall x | x in EntriesOf(c.at) ensures x in table.Values {
      var n, i :| n in c.at && 0 <= i < |c.at[n]| && c.at[n][i] == x;
      assert Fits(c.at[n][i], c.key[n], table, hash);
    }
    forall x | x in table.Values ensures x in EntriesOf(c.at) {
      var s :| s in table && table[s] == x;
      assert Held(s, c, table, hash);
    }
  }

  /** A new entry at the end of the chain of its hash. */
  method AppendEntry(spl: Node, s: Name, pe: Syment, ghost c: Chains) returns (se: Syment)
    requires OnHeap(c) && spl in c.at && pe == c.at[spl][|c.at[spl]| - 1]
    requires forall n :: n in c.at && n != spl ==> pe !in c.at[n]
    modifies pe`next
    ensures fresh(se) && se.name == s && OnHeap(c.(at := c.at[spl := c.at[spl] + [se]]))
  {
    ghost var d := c.at[spl];
    assert NodeFits(spl, d, c.key[spl]);
    se := new Syment(s);
    LinkLast(pe, se, d, spl.data);
    ghost var c' := c.(at := c.at[spl := d + [se]]);
    forall n | n in c'.at ensures NodeFits(n, c'.at[n], c'.key[n]) {
      if n != spl { assert old(NodeFits(n, c.at[n], c.key[n])); }
    }
  }

  /** The links and the data pointer once an entry is taken out of its chain. */
  method DropEntry(spl: Node, se: Syment, pe: Syment?, ghost c: Chains, ghost k: nat)
    requires OnHeap(c) && spl in c.at && k < |c.at[spl]|
    requires se == c.at[spl][k] && pe == if k > 0 then c.at[spl][k - 1] else null
    requires forall n, i :: n in c.at && n != spl && 0 <= i < |c.at[spl]| ==> c.at[spl][i] !in c.at[n]
    modifies spl`data, c.at[spl]`next
    ensures OnHeap(Without(c, spl, k))
    ensures spl.data == null <==> |c.at[spl]| == 1
  {
    ghost var d, c' := c.at[spl], Without(c, spl, k);
    assert NodeFits(spl, d, c.key[spl]);
    UnlinkEntry(spl, se, pe, d, k);
    assert |d| == 1 <==> d[..k] + d[k + 1..] == [];
    forall n | n in c'.at ensures NodeFits(n, c'.at[n], c'.key[n]) {
      if n != spl { assert old(NodeFits(n, c.at[n], c.key[n])); }
    }
  }

  /** One symbol database.  `hash` stands for crc32n. */
  class SymTab {
    const spt: SpTree
    const pool: Pool
    const hash: Name -> Key
    ghost var state: Chains
    ghost var table: map<Name, Syment>

    /** The tree's nodes carry the chains, and the chains hold the table. */
    ghost predicate Valid()
      reads this, spt, Nodes(spt.shape)`left, Nodes(spt.shape)`right, Nodes(spt.shape)`up, Nodes(spt.shape)`key
      reads pool, pool.free`up, state.at.Keys`key, state.at.Keys`data, EntriesOf(state.at)`next
    {
      && spt.ValidWith(pool) && state.at.Keys == Nodes(spt.shape)
      && OnHeap(state) && Hold(state, table, hash)
    }

    /** The tree nodes in use or free. */
    ghost function Space(): set<Node>
      reads spt, pool
    {
      Nodes(spt.shape) + set n | n in pool.free
    }

    /** Everything the operations may write to. */
    ghost function Repr(): set<object>
      reads this, spt, pool
    {
      {this, spt, pool} + Space() + EntriesOf(state.at)
    }

    constructor (pool: Pool, hash: Name -> Key)
      requires pool.Valid()
      ensures Valid() && table == map[] && this.pool == pool && this.hash == hash && fresh(spt)
    {
      var t := new SpTree();
      spt := t;
      this.pool := pool;
      this.hash := hash;
      state := Chains(map[], map[]);
      table := map[];
    }

    /** What the search for a name has found: `id` its entry or null, at `k` in
        the chain of the node `spl`, or past the end of it. */
    ghost predicate Found(s: Name, spl: Node?, id: Syment?, pe: Syment?, k: nat)
      reads this
    {
      && id == (if s in table then table[s] else null)
      && (spl == null ==>
           && id == null && pe == null && forall n :: n in state.at && n in state.key ==> state.key[n] != hash(s))
      && (spl != null ==>
           && spl in state.at && spl in state.key && state.key[spl] == hash(s)
           && var c := state.at[spl];
              c != [] && k <= |c| && id == (if k < |c| then c[k] else null) && pe == (if k > 0 then c[k - 1] else null))
    }

    lemma Parts()
      requires Valid()
      ensures spt.ValidWith(pool) && spt.Linked() && state.at.Keys == Nodes(spt.shape)
      ensures OnHeap(state) && Hold(state, table, hash)
    {
      hide OnHeap, Hold;
    }

    lemma PartsBut(gone: Node)
      requires spt.ValidWith(pool) && state.at.Keys == Nodes(spt.shape) - {gone} && OnHeap(state)
              && Hold(state, table, hash)
      ensures ValidBut(gone)
    {
      hide SpTree.ValidWith, OnHeap, Hold;
    }

    lemma UseFound(s: Name, spl: Node?, id: Syment?, pe: Syment?, k: nat)
      requires Found(s, spl, id, pe, k)
      ensures id == if s in table then table[s] else null
      ensures pe != null ==> spl != null
      ensures (pe == null && id == null ==> spl == null) && (spl == null ==> id == null)
    {
    }

    /** sp_lookup on the symbol tree. */
    method FindNode(key: Key) returns (spl: Node?)
      requires Valid()
      modifies spt`root, spt`shape, spt`lookups, spt`lkpcmps, spt`splays, spt`splayloops
      modifies Nodes(spt.shape)`left, Nodes(spt.shape)`right, Nodes(spt.shape)`up
      ensures Valid() && Nodes(spt.shape) == old(Nodes(spt.shape)) && Space() == old(Space())
      ensures spl != null ==> spl in state.at && state.key[spl] == key
      ensures spl == null ==> forall n :: n in state.at ==> state.key[n] != key
      ensures spl == null ==> !HasKey(InOrder(spt.shape), key)
    {
      spl := LookupQuietly(key);
      KeysOnHeap(spl, key);
    }

    /** sp_lookup, which the chains do not notice. */
    method LookupQuietly(key: Key) returns (spl: Node?)
      requires Valid()
      modifies spt`root, spt`shape, spt`lookups, spt`lkpcmps, spt`splays, spt`splayloops
      modifies Nodes(spt.shape)`left, Nodes(spt.shape)`right, Nodes(spt.shape)`up
      ensures Valid() && Nodes(spt.shape) == old(Nodes(spt.shape)) && Space() == old(Space())
      ensures spl != null ==> spl in Nodes(spt.shape) && spl.key == key
      ensures spl == null <==> !HasKey(InOrder(spt.shape), key)
    {
      hide *;
      EntriesAllocated(state);
      Parts();
      SpaceIs();
      spt.FreeOutside(pool);
      spl := spt.Lookup(key);
      ChainsStay(state);
      assert pool.Valid() == old(pool.Valid());
      spt.BesidePool(pool);
      ChainsMade();
      SpaceIs();
      if spl != null { spt.RootInTree(); }
    }

    lemma ChainsMade()
      requires spt.ValidWith(pool) && state.at.Keys == Nodes(spt.shape) && OnHeap(state) && Hold(state, table, hash)
      ensures Valid() && spt.Linked()
    {
      hide OnHeap, Hold;
    }

    lemma SpaceIs()
      ensures Space() == Nodes(spt.shape) + set n | n in pool.free
    {
    }

    lemma KeysOnHeap(spl: Node?, key: Key)
      requires spt.Linked() && state.at.Keys == Nodes(spt.shape) && OnHeap(state)
      requires spl != null ==> spl in Nodes(spt.shape) && spl.key == key
      requires spl == null ==> !HasKey(InOrder(spt.shape), key)
      ensures spl != null ==> spl in state.at && state.key[spl] == key
      ensures spl == null ==> forall n :: n in state.at ==> state.key[n] != key
    {
      KeysOfNodes(spt.shape, Snap(Nodes(spt.shape)), key);
      if spl != null {
        assert NodeFits(spl, state.at[spl], state.key[spl]);
      } else {
        forall n | n in state.at ensures state.key[n] != key {
          assert NodeFits(n, state.at[n], state.key[n]);
        }
      }
    }

    /** The do-while loop over the chain of the node found, if any: the entry
        with the name or null, and the entry before the place it stopped at. */
    method SearchChain(s: Name, spl: Node?) returns (id: Syment?, pe: Syment?, ghost k: nat)
      requires Valid()
      requires if spl != null then spl in state.at && state.key[spl] == hash(s)
               else forall n :: n in state.at ==> state.key[n] != hash(s)
      ensures Valid() && Found(s, spl, id, pe, k)
    {
      hide SpTree.ValidWith, Hold;
      id, pe, k := null, null, 0;
      if spl != null {
        ghost var c := state.at[spl];
        assert NodeFits(spl, c, state.key[spl]);
        var se: Syment? := spl.data as Syment;
        while se != null
          invariant k <= |c| && se == (if k < |c| then c[k] else null) && pe == (if k > 0 then c[k - 1] else null)
          invariant forall i :: 0 <= i < k ==> c[i].name != s
          decreases |c| - k
        {
          if |se.name| == |s| && se.name == s {
            break;
          }
          assert se == c[k];
          pe := se;
          se := se.next;
          k := k + 1;
        }
        id := se;
      }
      FoundByHold(state, table, hash, s, spl, id, k);
    }

    /** The search that all operations start with. */
    method Find(s: Name) returns (spl: Node?, id: Syment?, pe: Syment?, ghost k: nat)
      requires Valid()
      modifies spt`root, spt`shape, spt`lookups, spt`lkpcmps, spt`splays, spt`splayloops
      modifies Nodes(spt.shape)`left, Nodes(spt.shape)`right, Nodes(spt.shape)`up
      ensures Valid() && Found(s, spl, id, pe, k)
      ensures Nodes(spt.shape) == old(Nodes(spt.shape)) && Space() == old(Space())
      ensures spl == null ==> !HasKey(InOrder(spt.shape), hash(s))
    {
      spl := FindNode(hash(s));
      id, pe, k := SearchChain(s, spl);
    }

    /** symbol_lookup_db_mem: the id of the name, or null. */
    method LookupMem(m: Mem) returns (id: Syment?)
      requires Valid()
      modifies spt`root, spt`shape, spt`lookups, spt`lkpcmps, spt`splays, spt`splayloops
      modifies Nodes(spt.shape)`left, Nodes(spt.shape)`right, Nodes(spt.shape)`up
      ensures Valid() && Nodes(spt.shape) == old(Nodes(spt.shape)) && Space() == old(Space())
      ensures id == if m.Bytes? && m.name in table then table[m.name] else null
    {
      if m.Null? {
        return null;
      }
      var spl, pe;
      ghost var k;
      spl, id, pe, k := Find(m.name);
    }

    /** symbol_db_mem: the id of the name, entered if it is new. */
    method InternMem(m: Mem) returns (id: Syment?)
      requires Valid()
      modifies this, spt, Nodes(spt.shape)`left, Nodes(spt.shape)`right, Nodes(spt.shape)`up, EntriesOf(state.at)`next
      modifies pool, pool.free`left, pool.free`right, pool.free`up, pool.free`key, pool.free`data
      ensures Valid()
      ensures m.Null? ==> id == null && table == old(table)
      ensures m.Bytes? && m.name in old(table) ==> id == old(table)[m.name] && table == old(table)
      ensures m.Bytes? && m.name !in old(table) ==> id != null && fresh(id) && table == old(table)[m.name := id]
      ensures forall x :: x in Space() ==> x in old(Space()) || fresh(x)
    {
      hide *;
      if m.Null? {
        return null;
      }
      var s := m.name;
      var spl, se, pe;
      ghost var k;
      spl, se, pe, k := Find(s);
      label found:
      UseFound(s, spl, se, pe, k);
      if se != null {
        return se;
      }
      if pe != null {
        id := AddToChain(s, spl, pe, k);
        assert Space() == old@found(Space());
      } else {
        id := AddNode(s);
        forall x | x in Space() ensures x in old(Space()) || fresh(x) {
          assert x in old@found(Space()) || fresh@found(x);
        }
      }
    }

    /** symbol_db_mem, a new entry in an old chain: src/spsymbol.c:106-112. */
    method AddToChain(s: Name, spl: Node, pe: Syment, ghost k: nat) returns (id: Syment)
      requires Valid() && Found(s, spl, null, pe, k) && s !in table
      modifies this`state, this`table, EntriesOf(state.at)`next
      ensures Valid() && fresh(id) && table == old(table)[s := id]
    {
      hide *;
      Parts();
      NodesAllocated(spt.shape);
      ChainEnd(s, spl, pe, k);
      id := AppendEntry(spl, s, pe, state);
      HoldAppended(state, table, hash, spl, id);
      assert spt.ValidWith(pool) == old(spt.ValidWith(pool));
      Commit(state.(at := state.at[spl := state.at[spl] + [id]]), table[s := id]);
    }

    lemma ChainEnd(s: Name, spl: Node, pe: Syment, k: nat)
      requires Hold(state, table, hash) && OnHeap(state) && Found(s, spl, null, pe, k)
      ensures spl in state.at && state.key.Keys == state.at.Keys && state.key[spl] == hash(s)
      ensures state.at[spl] != [] && pe == state.at[spl][|state.at[spl]| - 1] && pe in EntriesOf(state.at)
      ensures forall n :: n in state.at && n != spl ==> pe !in state.at[n]
    {
      hide NodeFits;
      OtherChains(state, table, hash, spl, |state.at[spl]| - 1);
    }

    /** symbol_db_mem, a new entry under a new tree node: src/spsymbol.c:106-115. */
    method AddNode(s: Name) returns (id: Syment)
      requires Valid() && s !in table && !HasKey(InOrder(spt.shape), hash(s))
      modifies this`state, this`table, spt, Nodes(spt.shape)`left, Nodes(spt.shape)`right, Nodes(spt.shape)`up
      modifies pool, pool.free`left, pool.free`right, pool.free`up, pool.free`key, pool.free`data
      ensures Valid() && fresh(id) && table == old(table)[s := id]
      ensures forall x :: x in Space() ==> x in old(Space()) || fresh(x)
    {
      hide *;
      NodesAllocated(spt.shape);
      EntriesAllocated(state);
      id := new Syment(s);
      assert Valid() == old(Valid());
      Parts();
      KeysOnHeap(null, hash(s));
      label made:
      var spl := GrowTree(hash(s));
      PartsBut(spl);
      label grown:
      StartChain(spl, id);
      assert Space() == old@grown(Space()) && old(Space()) == old@made(Space());
      forall x | x in Space() ensures x in old(Space()) || fresh(x) {
        assert x in old@made(Space()) || fresh@made(x);
      }
    }

    /** The first entry under the node that sp_install made. */
    method StartChain(spl: Node, id: Syment)
      requires ValidBut(spl) && spl in Nodes(spt.shape) && spl.key == hash(id.name)
      requires id.next == null && id.name !in table && forall n :: n in state.at ==> state.key[n] != hash(id.name)
      modifies this`state, this`table, spl`data
      ensures Valid() && table == old(table)[id.name := id]
    {
      hide SpTree.ValidWith, Hold;
      HoldAdded(state, table, hash, spl, id);
      SetData(spl, id, state);
      Commit(Chains(state.at[spl := [id]], state.key[spl := hash(id.name)]), table[id.name := id]);
    }

    /** symbol_free_db_mem: the name is gone, and its node too if it was the last there. */
    method FreeMem(m: Mem)
      requires Valid()
      modifies this`state, this`table, spt, Nodes(spt.shape)`left, Nodes(spt.shape)`right, Nodes(spt.shape)`up
      modifies Nodes(spt.shape)`data, EntriesOf(state.at)`next, pool
      ensures Valid()
      ensures table == (if m.Bytes? then old(table) - {m.name} else old(table)) && Space() <= old(Space())
    {
      if m.Bytes? {
        var spl, se, pe;
        ghost var k;
        spl, se, pe, k := Find(m.name);
        FreeFound(m.name, spl, se, pe, k);
      }
    }

    /** symbol_free_db_mem after its search. */
    method FreeFound(s: Name, spl: Node?, se: Syment?, pe: Syment?, ghost k: nat)
      requires Valid() && Found(s, spl, se, pe, k)
      modifies this`state, this`table, spt, Nodes(spt.shape)`left, Nodes(spt.shape)`right, Nodes(spt.shape)`up
      modifies Nodes(spt.shape)`data, EntriesOf(state.at)`next, pool
      ensures Valid() && table == old(table) - {s} && Space() <= old(Space())
    {
      hide *;
      UseFound(s, spl, se, pe, k);
      if spl != null {
        HeadIsThere(s, spl, se, pe, k);
        if se != null {
          Unchain(s, spl, se, pe, k);
          assert Space() == old(Space());
        } else {
          assert table - {s} == table;
        }
        if spl.data == null {
          DropNode(spl);
        }
      } else {
        assert table - {s} == table;
      }
    }

    lemma HeadIsThere(s: Name, spl: Node, se: Syment?, pe: Syment?, k: nat)
      requires Valid() && Found(s, spl, se, pe, k)
      ensures spl.data != null && spl in Nodes(spt.shape)
    {
      Parts();
      hide SpTree.ValidWith, SpTree.Linked, Hold, Nodes;
      assert NodeFits(spl, state.at[spl], state.key[spl]);
    }

    /** Valid, but `gone` is a tree node without a chain. */
    ghost predicate ValidBut(gone: Node)
      reads this, spt, Nodes(spt.shape)`left, Nodes(spt.shape)`right, Nodes(spt.shape)`up, Nodes(spt.shape)`key
      reads pool, pool.free`up, state.at.Keys`key, state.at.Keys`data, EntriesOf(state.at)`next
    {
      && spt.ValidWith(pool) && state.at.Keys == Nodes(spt.shape) - {gone}
      && OnHeap(state) && Hold(state, table, hash)
    }

    /** symbol_free_db_mem on the chain: src/spsymbol.c:172-178. */
    method Unchain(s: Name, spl: Node, se: Syment, pe: Syment?, ghost k: nat)
      requires Valid() && Found(s, spl, se, pe, k)
      modifies this`state, this`table, spl`data, EntriesOf(state.at)`next
      ensures if spl.data == null then ValidBut(spl) && spl in Nodes(spt.shape) else Valid()
      ensures table == old(table) - {s}
    {
      hide SpTree.ValidWith, OnHeap, Hold;
      ghost var c := Without(state, spl, k);
      UnchainReady(s, spl, se, k);
      DropUnder(spl, se, pe, state, k);
      if spl.data == null {
        CommitBut(c, table - {s}, spl);
      } else {
        Commit(c, table - {s});
      }
    }

    /** DropEntry, and the tree does not notice. */
    method DropUnder(spl: Node, se: Syment, pe: Syment?, ghost c: Chains, ghost k: nat)
      requires spt.ValidWith(pool) && OnHeap(c) && spl in c.at && k < |c.at[spl]|
      requires se == c.at[spl][k] && pe == if k > 0 then c.at[spl][k - 1] else null
      requires forall n, i :: n in c.at && n != spl && 0 <= i < |c.at[spl]| ==> c.at[spl][i] !in c.at[n]
      modifies spl`data, c.at[spl]`next
      ensures spt.ValidWith(pool) && OnHeap(Without(c, spl, k))
      ensures spl.data == null <==> |c.at[spl]| == 1
    {
      hide *;
      NodesAllocated(spt.shape);
      DropEntry(spl, se, pe, c, k);
      assert spt.ValidWith(pool) == old(spt.ValidWith(pool));
    }

    lemma UnchainReady(s: Name, spl: Node, se: Syment, k: nat)
      requires OnHeap(state) && Hold(state, table, hash)
      requires spl in state.at && k < |state.at[spl]| && se == state.at[spl][k] && s in table && table[s] == se
      ensures Hold(Without(state, spl, k), table - {s}, hash)
      ensures forall n, i :: n in state.at && n != spl && 0 <= i < |state.at[spl]| ==> state.at[spl][i] !in state.at[n]
      ensures Without(state, spl, k).at.Keys == state.at.Keys - (if |state.at[spl]| == 1 then {spl} else {})
    {
      AllChainsApart(state, table, hash, spl);
      assert NodeFits(spl, state.at[spl], state.key[spl]);
      HoldRemoved(state, table, hash, spl, k);
      assert se.name == s by { assert Held(s, state, table, hash); }
    }

    /** sp_delete of a node whose chain is empty. */
    method DropNode(spl: Node)
      requires ValidBut(spl) && spl in Nodes(spt.shape)
      modifies spt, Nodes(spt.shape)`left, Nodes(spt.shape)`right, Nodes(spt.shape)`up, pool
      ensures Valid() && table == old(table) && Space() <= old(Space())
    {
      hide *;
      EntriesAllocated(state);
      ButParts(spl);
      SpaceIs();
      spt.Delete(spl, pool);
      ChainsStay(state);
      ChainsMade();
      SpaceIs();
    }

    lemma ButParts(gone: Node)
      requires ValidBut(gone)
      ensures spt.ValidWith(pool) && state.at.Keys == Nodes(spt.shape) - {gone} && OnHeap(state)
              && Hold(state, table, hash)
    {
      hide SpTree.ValidWith, OnHeap, Hold;
    }

    /** One request of a run. */
    method ServeOne(q: Request) returns (id: Syment?, ghost op: Op)
      requires Valid()
      modifies Repr()
      ensures Valid() && Answer(old(table), q, id, op) && table == Ran(old(table), [op])
      ensures forall x :: x in Repr() ==> x in old(Repr()) || fresh(x)
    {
      hide *;
      TableParts();
      ghost var t := table;
      id := null;
      if q.ToIntern? {
        id := InternMem(q.m);
        op := if q.m.Null? then Nothing else Intern(id);
      } else if q.ToLookup? {
        id := LookupMem(q.m);
        op := if q.m.Null? then Nothing else Lookup(q.m.name);
      } else {
        FreeMem(q.m);
        op := if q.m.Null? then Nothing else Free(q.m.name);
      }
      TableParts();
      if q.ToIntern? && q.m.Bytes? {
        assert q.m.name in table && table[q.m.name] == id;
      }
      Answered(t, table, q, id, op);
      forall x | x in Repr() ensures x in old(Repr()) || fresh(x) {
        assert x in {this, spt, pool} || x in Space() || x in table.Values;
      }
    }

    /** The entries are the ids of the table, and each id has its name. */
    lemma TableParts()
      requires Valid()
      ensures Repr() == {this, spt, pool} + Space() + table.Values
      ensures Nodes(spt.shape) <= Space() && (forall x :: x in pool.free ==> x in Space())
              && EntriesOf(state.at) == table.Values
      ensures forall s :: s in table ==> table[s].name == s
      ensures forall x :: x in table.Values ==> allocated(x)
    {
      hide OnHeap, SpTree.ValidWith;
      EntriesInTable(state, table, hash);
      IdsDistinct(state, table, hash);
    }

    /** Any run of the operations: what the table is at the end and what every call answered. */
    method Serve(requests: seq<Request>) returns (ids: seq<Syment?>, ghost ops: seq<Op>)
      requires Valid()
      modifies Repr()
      ensures Valid() && table == Ran(old(table), ops) && Answers(old(table), requests, ids, ops)
    {
      hide *;
      ids, ops := [], [];
      ServeStart(table, requests);
      for i := 0 to |requests|
        invariant Valid() && table == Ran(old(table), ops) && Answers(old(table), requests[..i], ids, ops)
        invariant forall x :: x in Repr() ==> x in old(Repr()) || fresh(x)
      {
        label next:
        var id;
        ghost var op;
        id, op := ServeOne(requests[i]);
        RanOn(old(table), ops, [op]);
        AnswersMore(old(table), requests, ids, ops, i, id, op);
        ids, ops := ids + [id], ops + [op];
        forall x | x in Repr() ensures x in old(Repr()) || fresh(x) {
          assert x in old@next(Repr()) || fresh@next(x);
        }
      }
      assert requests[..|requests|] == requests;
    }

    lemma ServeStart(t: map<Name, Syment>, requests: seq<Request>)
      ensures t == Ran(t, []) && Answers(t, requests[..0], [], [])
    {
    }

    /** symbol_null: the walk that frees one chain. */
    method FreeChain(spl: Node) returns (freed: seq<Syment>)
      requires OnHeap(state) && spl in state.at
      ensures freed == state.at[spl]
    {
      ghost var c := state.at[spl];
      assert NodeFits(spl, c, state.key[spl]);
      var se: Syment? := spl.data as Syment?;
      freed := [];
      while se != null
        invariant |freed| <= |c| && freed == c[..|freed|]
        invariant se == if |freed| < |c| then c[|freed|] else null
        decreases |c| - |freed|
      {
        assert se == c[|freed|];
        var sn := se.next;
        freed := freed + [se];
        se := sn;
      }
    }

    /** symbol_null_db: every entry freed once, every node given back, the table empty. */
    method NullDb() returns (freed: seq<Syment>)
      requires Valid()
      modifies this`state, this`table, spt, pool, Nodes(spt.shape)`up
      ensures Valid() && table == map[]
      ensures Once(freed) && forall x :: x in freed <==> x in old(table).Values
      ensures pool.free == ChopOrder(old(spt.shape)) + old(pool.free)
    {
      hide Once, Rep, Distinct, Ordered, InOrder, SplayPool.Chain, ChopOrder, Hold;
      freed := FreeAll();
      NodesAllocated(spt.shape);
      EmptyHolds(hash);
      spt.Null(pool);
      Commit(Chains(map[], map[]), map[]);
    }

    lemma TreeDistinct()
      requires spt.Linked()
      ensures Distinct(spt.shape)
    {
      hide Distinct, Rep, Ordered;
    }

    /** sp_scan(symbol_null, NULL, spt): the callbacks, which leave the tree alone,
        are made after the scan has listed the nodes. */
    method FreeAll() returns (freed: seq<Syment>)
      requires Valid()
      ensures Valid() == old(Valid())
      ensures Once(freed) && forall x :: x in freed <==> x in table.Values
    {
      hide *;
      NodesAllocated(spt.shape);
      EntriesAllocated(state);
      Parts();
      TreeDistinct();
      var visited := spt.Scan(null);
      FromFirst(spt.shape);
      VisitedOnce(spt.shape, visited);
      assert OnHeap(state) == old(OnHeap(state));
      freed := FreeChains(visited);
      assert OnHeap(state) == old(OnHeap(state));
      AllFreed(visited, state, table, hash);
      assert Valid() == old(Valid());
    }

    lemma FromFirst(t: Tree)
      ensures ScanStart(t, null) == 0
    {
    }

    method FreeChains(visited: seq<Node>) returns (freed: seq<Syment>)
      requires OnHeap(state) && forall n :: n in visited ==> n in state.at
      ensures freed == Flat(visited, state.at)
    {
      freed := [];
      for i := 0 to |visited|
        invariant freed == Flat(visited[..i], state.at)
      {
        var chain := FreeChain(visited[i]);
        FlatStep(visited, i, state.at);
        freed := freed + chain;
      }
      assert visited[..|visited|] == visited;
    }

    ghost method CommitBut(c: Chains, t: map<Name, Syment>, gone: Node)
      requires spt.ValidWith(pool) && c.at.Keys == Nodes(spt.shape) - {gone} && OnHeap(c) && Hold(c, t, hash)
      modifies this`state, this`table
      ensures ValidBut(gone) && state == c && table == t
    {
      hide SpTree.ValidWith, OnHeap, Hold;
      state, table := c, t;
    }

    /** Take note of new chains and a new table. */
    ghost method Commit(c: Chains, t: map<Name, Syment>)
      requires spt.ValidWith(pool) && c.at.Keys == Nodes(spt.shape) && OnHeap(c) && Hold(c, t, hash)
      modifies this`state, this`table
      ensures Valid() && state == c && table == t
    {
      hide SpTree.ValidWith, OnHeap, Hold;
      state, table := c, t;
    }

    /** sp_install of an absent key: the chains do not notice. */
    method GrowTree(key: Key) returns (spl: Node)
      requires spt.ValidWith(pool) && state.at.Keys == Nodes(spt.shape) && OnHeap(state)
      requires !HasKey(InOrder(spt.shape), key)
      modifies spt, Nodes(spt.shape)`left, Nodes(spt.shape)`right, Nodes(spt.shape)`up
      modifies pool, pool.free`left, pool.free`right, pool.free`up, pool.free`key
      ensures spt.ValidWith(pool) && Nodes(spt.shape) == {spl} + state.at.Keys && spl !in state.at
      ensures spl.key == key && OnHeap(state) && (fresh(spl) || spl in old(pool.free))
      ensures forall x :: x in Space() ==> x in old(Space()) || fresh(x)
    {
      hide *;
      NodesAllocated(spt.shape);
      EntriesAllocated(state);
      FreeApart();
      spl := spt.Install(key, pool);
      assert OnHeap(state) == old(OnHeap(state));
      SpaceGrown(spl, old(Space()), old(Nodes(spt.shape)), old(pool.free));
      forall x | x in Space() ensures x in old(Space()) || fresh(x) {
        assert x in old(Space()) || x == spl || (x in pool.free && x !in old(pool.free));
      }
    }

    lemma FreeApart()
      requires spt.ValidWith(pool)
      ensures forall x :: x in pool.free ==> x !in Nodes(spt.shape)
      ensures Space() == Nodes(spt.shape) + set n | n in pool.free
    {
    }

    lemma SpaceGrown(spl: Node, was: set<Node>, nodes: set<Node>, free: seq<Node>)
      requires was == nodes + (set n | n in free) && Nodes(spt.shape) == {spl} + nodes
      ensures forall x :: x in Space() ==> x in was || x == spl || (x in pool.free && x !in free)
      ensures spl in free ==> spl in was
    {
    }

    /** A node that had no chain points to its first entry. */
    method SetData(spl: Node, se: Syment, ghost c: Chains)
      requires spt.ValidWith(pool) && OnHeap(c) && spl !in c.at && se.next == null
      modifies spl`data
      ensures spt.ValidWith(pool) && OnHeap(Chains(c.at[spl := [se]], c.key[spl := spl.key]))
    {
      spl.data := se;
      assert spt.ValidWith(pool) == old(spt.ValidWith(pool));
      ghost var c' := Chains(c.at[spl := [se]], c.key[spl := spl.key]);
      forall n | n in c'.at ensures NodeFits(n, c'.at[n], c'.key[n]) {
        if n != spl { assert old(NodeFits(n, c.at[n], c.key[n])); }
      }
    }
  }

  lemma FoundByHold(c: Chains, table: map<Name, Syment>, hash: Name -> Key, s: Name, spl: Node?, id: Syment?, k: nat)
    requires Hold(c, table, hash)
    requires spl == null ==> id == null && forall n :: n in c.at ==> c.key[n] != hash(s)
    requires spl != null ==>
      && spl in c.at && c.key[spl] == hash(s)
      && k <= |c.at[spl]| && id == (if k < |c.at[spl]| then c.at[spl][k] else null)
      && (forall i :: 0 <= i < k ==> c.at[spl][i].name != s) && (id != null ==> id.name == s)
    ensures id == if s in table then table[s] else null
  {
    if s in table { assert Held(s, c, table, hash); }
    if id != null { assert Fits(id, c.key[spl], table, hash); }
  }
}
