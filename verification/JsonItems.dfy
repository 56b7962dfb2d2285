/** src/cJSON.c on the heap: struct cJSON and the tree of values it carries. */
module JsonItems {
  import opened JsonText
  import opened Decimals

  const KIND_FALSE := 0
  const KIND_TRUE := 1
  const KIND_NULL := 2
  const KIND_NUMBER := 3
  const KIND_STRING := 4
  const KIND_ARRAY := 5
  const KIND_OBJECT := 6

  /** A `char *` that may be NULL. */
  datatype CStr = NoString | Str(s: Text)

  /** struct cJSON; valuedouble is mant * 10^exp, and a type flag never occurs here. */
  class Item {
    var next: Item?
    var prev: Item?
    var child: Item?
    var kind: int
    var valuestring: CStr
    var mant: int
    var exp: int
    var name: CStr

    /** cJSON_New_Item */
    constructor ()
      ensures next == null && prev == null && child == null && kind == KIND_FALSE
      ensures valuestring == NoString && mant == 0 && exp == 0 && name == NoString
    {
      next, prev, child, kind := null, null, null, KIND_FALSE;
      valuestring, mant, exp, name := NoString, 0, 0, NoString;
    }
  }

  /** Which items carry a tree: the item itself and, in order, its children's. */
  datatype Nodes = Nodes(item: Item, kids: seq<Nodes>)

  ghost function All(n: Nodes): (r: set<Item>)
    ensures n.item in r && Inner(n.kids) <= r
    decreases n, 1
  {
    {n.item} + Inner(n.kids)
  }

  ghost function Inner(kids: seq<Nodes>): (r: set<Item>)
    ensures forall i :: 0 <= i < |kids| ==> All(kids[i]) <= r
    decreases kids, 0
  {
    if kids == [] then {} else Inner(kids[..|kids| - 1]) + All(kids[|kids| - 1])
  }

  ghost function Items(kids: seq<Nodes>): (r: seq<Item>)
    ensures |r| == |kids| && forall i :: 0 <= i < |kids| ==> r[i] == kids[i].item
  {
    seq(|kids|, i requires 0 <= i < |kids| => kids[i].item)
  }

  ghost function Next(s: seq<Item>, i: nat): Item? { if i + 1 < |s| then s[i + 1] else null }

  ghost function Prev(s: seq<Item>, i: nat): Item? { if 0 < i <= |s| then s[i - 1] else null }

  /** A children list from `head`, linked both ways. */
  ghost predicate Linked(s: seq<Item>, head: Item?)
    reads s`next, s`prev
  {
    && head == (if s == [] then null else s[0])
    && (forall i {:trigger s[i].next} :: 0 <= i < |s| ==> s[i].next == Next(s, i))
    && (forall i {:trigger s[i].prev} :: 0 <= i < |s| ==> s[i].prev == Prev(s, i))
  }

  /** The items carry the value. */
  ghost predicate Carries(n: Nodes, v: Json)
    reads n.item`child, n.item`kind, n.item`valuestring, n.item`mant, n.item`exp, Inner(n.kids)
    decreases n, 1
  {
    match v
    case Null => n.item.kind == KIND_NULL && n.kids == []
    case False => n.item.kind == KIND_FALSE && n.kids == []
    case True => n.item.kind == KIND_TRUE && n.kids == []
    case Number(mant, exp) => n.item.kind == KIND_NUMBER && n.item.mant == mant && n.item.exp == exp && n.kids == []
    case String(s) => n.item.kind == KIND_STRING && n.item.valuestring == Str(s) && n.kids == []
    case Array(items) =>
      n.item.kind == KIND_ARRAY && Linked(Items(n.kids), n.item.child) && CarryAll(n.kids, items)
    case Object(members) =>
      n.item.kind == KIND_OBJECT && Linked(Items(n.kids), n.item.child) && CarryMembers(n.kids, members)
  }

  ghost predicate CarryAll(kids: seq<Nodes>, items: seq<Json>): (r: bool)
    reads Inner(kids)
    ensures r ==> |kids| == |items|
    decreases kids, 0
  {
    |kids| == |items| && forall i :: 0 <= i < |kids| ==> Carries(kids[i], items[i])
  }

  ghost predicate CarryMembers(kids: seq<Nodes>, members: seq<Member>): (r: bool)
    reads Inner(kids)
    ensures r ==> |kids| == |members|
    decreases kids, 0
  {
    && |kids| == |members|
    && forall i :: 0 <= i < |kids| ==> kids[i].item.name == Str(members[i].name) && Carries(kids[i], members[i].value)
  }

  /** cJSON_GetArraySize, and the counting loops of the printers. */
  method ArraySize(list: Item, ghost s: seq<Item>) returns (n: nat)
    requires Linked(s, list.child)
    ensures n == |s|
  {
    n := 0;
    var c := list.child;
    while c != null
      invariant n <= |s| && c == if n < |s| then s[n] else null
      decreases |s| - n
    {
      assert c == s[n];
      n := n + 1;
      c := c.next;
    }
  }

  lemma {:induction false} TreeAllocated(n: Nodes)
    ensures forall x :: x in All(n) ==> allocated(x)
    decreases n, 1
  {
    ListAllocated(n.kids);
  }

  lemma {:induction false} ListAllocated(kids: seq<Nodes>)
    ensures forall x :: x in Inner(kids) ==> allocated(x)
    decreases kids, 0
  {
    if kids != [] {
      ListAllocated(kids[..|kids| - 1]);
      TreeAllocated(kids[|kids| - 1]);
    }
  }
}
