/** The children lists of src/cJSON.c as its callers use them: looking up, adding,
    detaching and replacing.  `s` is the list before the call, in order. */
module JsonLists {
  import opened JsonItems
  import opened JsonText
  import opened Decimals

  /** The place an index argument means: a negative one means the first. */
  function Place(which: int): nat { if which > 0 then which else 0 }

  /** cJSON_GetArrayItem, and the walk that detaching and replacing begin with. */
  method GetArrayItem(list: Item, which: int, ghost s: seq<Item>) returns (c: Item?)
    requires Linked(s, list.child)
    ensures c == if Place(which) < |s| then s[Place(which)] else null
  {
    c := list.child;
    var left := which;
    ghost var i: nat := 0;
    while c != null && left > 0
      invariant i <= |s| && c == (if i < |s| then s[i] else null)
      invariant if left > 0 then i + left == Place(which) else i == Place(which)
      decreases |s| - i
    {
      assert s[i].next == Next(s, i);
      left := left - 1;
      c := c.next;
      i := i + 1;
    }
  }

  function Without<T>(s: seq<T>, k: nat): seq<T>
    requires k < |s|
  {
    s[..k] + s[k + 1..]
  }

  /** cJSON_AddItemToArray */
  method AddItemToArray(list: Item, item: Item?, ghost s: seq<Item>)
    requires Linked(s, list.child)
    requires item != null ==> item !in s && item.next == null && item.prev == null
    modifies list`child, s`next, (if item == null then {} else {item})`prev
    ensures Linked(if item == null then s else s + [item], list.child)
  {
    if item == null {
      return;
    }
    var c := list.child;
    if c == null {
      list.child := item;
    } else {
      ghost var i := 0;
      while c.next != null
        invariant i < |s| && c == s[i]
        decreases |s| - i
      {
        assert s[i].next == Next(s, i);
        c := c.next;
        i := i + 1;
      }
      assert s[i].next == Next(s, i) && i == |s| - 1;
      ListDistinct(s, list.child);
      c.next := item;
      item.prev := c;
    }
  }

  /** A linked list names no item twice. */
  lemma ListDistinct(s: seq<Item>, head: Item?)
    requires Linked(s, head)
    ensures forall i, j :: 0 <= i < j < |s| ==> s[i] != s[j]
  {
    forall i, j | 0 <= i < j < |s| ensures s[i] != s[j] {
      Differ(s, head, i, j);
    }
  }

  lemma {:induction false} Differ(s: seq<Item>, head: Item?, i: nat, j: nat)
    requires Linked(s, head) && i < j < |s|
    ensures s[i] != s[j]
    decreases i
  {
    assert s[j].prev == Prev(s, j) && s[i].prev == Prev(s, i);
    if i > 0 { Differ(s, head, i - 1, j - 1); }
  }

  /** cJSON_DetachItemFromArray: the item comes out alone, and the others stay linked in order. */
  method DetachItemFromArray(list: Item, which: int, ghost s: seq<Item>) returns (c: Item?)
    requires Linked(s, list.child)
    modifies list`child, s`next, s`prev
    ensures Place(which) >= |s| ==> c == null && Linked(s, list.child)
    ensures Place(which) < |s| ==>
              && c == s[Place(which)] && c.next == null && c.prev == null
              && Linked(Without(s, Place(which)), list.child)
  {
    c := GetArrayItem(list, which, s);
    if c == null {
      return;
    }
    ListDistinct(s, list.child);
    Detach(list, c, s, Place(which));
  }

  /** The pointers of the item and of its neighbours: src/cJSON.c:489. */
  method Detach(list: Item, c: Item, ghost s: seq<Item>, ghost k: nat)
    requires Linked(s, list.child) && k < |s| && c == s[k]
    requires forall i, j :: 0 <= i < j < |s| ==> s[i] != s[j]
    modifies list`child, s`next, s`prev
    ensures c.next == null && c.prev == null && Linked(Without(s, k), list.child)
  {
    assert s[k].next == Next(s, k) && s[k].prev == Prev(s, k);
    if c.prev != null {
      c.prev.next := c.next;
    }
    if c.next != null {
      c.next.prev := c.prev;
    }
    if c == list.child {
      list.child := c.next;
    }
    c.prev := null;
    c.next := null;
    ghost var t := Without(s, k);
    forall i | 0 <= i < |t| ensures t[i].next == Next(t, i) && t[i].prev == Prev(t, i) {
      var j := if i < k then i else i + 1;
      assert t[i] == s[j] && old(s[j].next) == Next(s, j) && old(s[j].prev) == Prev(s, j);
    }
  }

  /** cJSON_ReplaceItemInArray: the new item takes the old one's place. */
  method ReplaceItemInArray(list: Item, which: int, newItem: Item, ghost s: seq<Item>) returns (c: Item?)
    requires Linked(s, list.child) && newItem !in s
    modifies list`child, newItem`next, newItem`prev, s`next, s`prev
    ensures Place(which) >= |s| ==> c == null && Linked(s, list.child)
    ensures Place(which) < |s| ==>
              && c == s[Place(which)] && c.next == null && c.prev == null
              && Linked(s[Place(which) := newItem], list.child)
  {
    c := GetArrayItem(list, which, s);
    if c == null {
      return;
    }
    ListDistinct(s, list.child);
    ghost var k := Place(which);
    Replace(list, c, newItem, s, k);
  }

  /** The pointers of the two items and of their neighbours: src/cJSON.c:496-497. */
  method Replace(list: Item, c: Item, newItem: Item, ghost s: seq<Item>, ghost k: nat)
    requires Linked(s, list.child) && newItem !in s && k < |s| && c == s[k]
    requires forall i, j :: 0 <= i < j < |s| ==> s[i] != s[j]
    modifies list`child, newItem`next, newItem`prev, s`next, s`prev
    ensures c.next == null && c.prev == null && Linked(s[k := newItem], list.child)
  {
    assert s[k].next == Next(s, k) && s[k].prev == Prev(s, k);
    newItem.next := c.next;
    newItem.prev := c.prev;
    if newItem.next != null {
      newItem.next.prev := newItem;
    }
    if c == list.child {
      list.child := newItem;
    } else {
      newItem.prev.next := newItem;
    }
    c.next := null;
    c.prev := null;
    ghost var t := s[k := newItem];
    forall i | 0 <= i < |t| ensures t[i].next == Next(t, i) && t[i].prev == Prev(t, i) {
      if i != k { assert t[i] == s[i] && old(s[i].next) == Next(s, i) && old(s[i].prev) == Prev(s, i); }
    }
  }

  // ----- names -----

  /** tolower in the C locale. */
  function Lower(c: int): int { if 65 <= c <= 90 then c + 32 else c }

  /** Equal but for the case of letters. */
  predicate SameLetters(a: Text, b: Text) {
    |a| == |b| && forall i :: 0 <= i < |a| ==> Lower(a[i]) == Lower(b[i])
  }

  const CAPITALS := "ABCDEFGHIJKLMNOPQRSTUVWXYZ"
  const SMALL := "abcdefghijklmnopqrstuvwxyz"

  /** Two characters count as one if they are, or are the two forms of one letter. */
  lemma SameLetterWhen(c: Char, d: Char)
    ensures Lower(c) == Lower(d)
            <==> c == d || exists k: nat :: k < 26 && ((c == CAPITALS[k] as int && d == SMALL[k] as int)
                                                      || (d == CAPITALS[k] as int && c == SMALL[k] as int))
  {
    Alphabet();
    if Lower(c) == Lower(d) && c != d {
      var k := if c < d then c - 65 else d - 65;
      assert CAPITALS[k] as int == 65 + k && SMALL[k] as int == 97 + k;
    }
  }

  lemma Alphabet()
    ensures |CAPITALS| == |SMALL| == 26
    ensures forall k: nat :: k < 26 ==> CAPITALS[k] as int == 65 + k && SMALL[k] as int == 97 + k
  {
  }

  predicate SameName(a: CStr, b: CStr) {
    if a.Str? && b.Str? then SameLetters(a.s, b.s) else a.NoString? && b.NoString?
  }

  /** cJSON_strcasecmp */
  method Strcasecmp(s1: CStr, s2: CStr) returns (r: int)
    ensures r == 0 <==> SameName(s1, s2)
  {
    if s1.NoString? {
      return if s2.NoString? then 0 else 1;
    }
    if s2.NoString? {
      return 1;
    }
    var a, b := s1.s, s2.s;
    var i := 0;
    while Lower(At(a, i)) == Lower(At(b, i))
      invariant i <= |a| && i <= |b| && forall j :: 0 <= j < i ==> Lower(a[j]) == Lower(b[j])
      decreases |a| - i
    {
      if At(a, i) == 0 {
        return 0;
      }
      i := i + 1;
    }
    r := Lower(At(a, i)) - Lower(At(b, i));
  }

  /** cJSON_GetObjectItem, and the counting walk of the operations on objects. */
  method GetObjectItem(list: Item, name: CStr, ghost s: seq<Item>) returns (c: Item?, k: nat)
    requires Linked(s, list.child)
    ensures FirstNamed(s, name, k) && c == if k < |s| then s[k] else null
  {
    hide SameName;
    c, k := list.child, 0;
    while c != null
      invariant k <= |s| && c == if k < |s| then s[k] else null
      invariant forall j :: 0 <= j < k ==> !SameName(s[j].name, name)
      decreases |s| - k
    {
      var r := Strcasecmp(c.name, name);
      if r == 0 {
        return;
      }
      assert s[k].next == Next(s, k);
      c, k := c.next, k + 1;
    }
  }

  /** `k` is the place of the first item with the name, or the length of the list. */
  ghost predicate FirstNamed(s: seq<Item>, name: CStr, k: nat)
    reads s`name
  {
    k <= |s| && (k < |s| ==> SameName(s[k].name, name)) && forall j :: 0 <= j < k ==> !SameName(s[j].name, name)
  }

  /** cJSON_DetachItemFromObject: the first child with that name comes out. */
  method DetachItemFromObject(list: Item, name: CStr, ghost s: seq<Item>) returns (c: Item?, k: nat)
    requires Linked(s, list.child)
    modifies list`child, s`next, s`prev
    ensures FirstNamed(s, name, k)
    ensures k == |s| ==> c == null && Linked(s, list.child)
    ensures k < |s| ==> c == s[k] && c.next == null && c.prev == null && Linked(Without(s, k), list.child)
  {
    hide FirstNamed, Linked;
    c, k := GetObjectItem(list, name, s);
    assert k <= |s| by { FirstInList(s, name, k); }
    if c != null {
      c := DetachItemFromArray(list, k, s);
    }
  }

  lemma FirstInList(s: seq<Item>, name: CStr, k: nat)
    requires FirstNamed(s, name, k)
    ensures k <= |s|
  {
  }

  // ----- the same on the trees that the lists carry -----

  /** The item is an array of these values. */
  ghost predicate ArrayOf(list: Item, kids: seq<Nodes>, items: seq<Json>): (r: bool)
    reads list`kind, list`child, Inner(kids)
    ensures r ==> Carries(Nodes(list, kids), Array(items))
  {
    list.kind == KIND_ARRAY && Linked(Items(kids), list.child) && CarryAll(kids, items)
  }

  /** No list item, nor the array itself, occurs below one of the list's items. */
  ghost predicate Apart(list: Item, kids: seq<Nodes>) {
    list !in Inner(kids) && forall i, j :: 0 <= i < |kids| && 0 <= j < |kids| ==> kids[i].item !in Inner(kids[j].kids)
  }

  lemma ApartBelow(list: Item, kids: seq<Nodes>, n: Nodes, i: nat)
    requires Apart(list, kids + [n]) && i <= |kids|
    ensures var below := Inner((kids + [n])[i].kids);
            n.item !in below && forall x :: x in Items(kids) ==> x !in below
  {
    hide Inner;
    var all := kids + [n];
    assert all[|kids|] == n;
    forall x | x in Items(kids) ensures x !in Inner(all[i].kids) {
      var j :| 0 <= j < |kids| && Items(kids)[j] == x;
      assert all[j].item == x;
    }
  }

  /** Adding an item appends its value. */
  method AddValue(list: Item, item: Item, ghost kids: seq<Nodes>, ghost items: seq<Json>, ghost n: Nodes, ghost v: Json)
    requires ArrayOf(list, kids, items) && Carries(n, v) && n.item == item && Apart(list, kids + [n])
    requires item !in Items(kids) && item.next == null && item.prev == null
    modifies list`child, Items(kids)`next, item`prev
    ensures ArrayOf(list, kids + [n], items + [v])
  {
    ghost var all, values := kids + [n], items + [v];
    hide Carries, Inner, Linked;
    ListAllocated(all);
    assert forall i :: 0 <= i < |all| ==> Carries(all[i], values[i]);
    AddItemToArray(list, item, Items(kids));
    assert Items(all) == Items(kids) + [item];
    forall i | 0 <= i < |all| ensures Carries(all[i], values[i]) {
      assert All(all[i]) <= Inner(all);
      ApartBelow(list, kids, n, i);
      assert old(Carries(all[i], values[i]));
    }
  }

  /** Detaching takes one value out of the array and hands over the item that carries it. */
  method DetachValue(list: Item, which: int, ghost kids: seq<Nodes>, ghost items: seq<Json>) returns (c: Item?)
    requires ArrayOf(list, kids, items) && Apart(list, kids)
    modifies list`child, Items(kids)`next, Items(kids)`prev
    ensures Place(which) >= |items| ==> c == null && ArrayOf(list, kids, items)
    ensures var k := Place(which);
            k < |items| ==>
              && c == kids[k].item && Carries(kids[k], items[k]) && c.next == null && c.prev == null
              && ArrayOf(list, Without(kids, k), Without(items, k))
  {
    hide Carries, Inner, Linked;
    ListAllocated(kids);
    assert forall i :: 0 <= i < |kids| ==> Carries(kids[i], items[i]);
    c := DetachItemFromArray(list, which, Items(kids));
    ghost var k := Place(which);
    assert k < |kids| ==> Items(Without(kids, k)) == Without(Items(kids), k);
    forall i | 0 <= i < |kids| ensures Carries(kids[i], items[i]) {
      assert All(kids[i]) <= Inner(kids);
      assert old(Carries(kids[i], items[i]));
    }
  }

  /** Replacing puts the new item's value in the place of the old one. */
  method ReplaceValue(list: Item, which: int, newItem: Item, ghost kids: seq<Nodes>, ghost items: seq<Json>,
                      ghost n: Nodes, ghost v: Json)
    requires ArrayOf(list, kids, items) && Carries(n, v) && n.item == newItem && Apart(list, kids + [n])
    requires newItem !in Items(kids)
    modifies list`child, newItem`next, newItem`prev, Items(kids)`next, Items(kids)`prev
    ensures var k := Place(which);
            if k < |items| then ArrayOf(list, kids[k := n], items[k := v]) else ArrayOf(list, kids, items)
  {
    ghost var all, values, k := kids + [n], items + [v], Place(which);
    hide Carries, Inner, Linked;
    ListAllocated(all);
    assert forall i :: 0 <= i < |all| ==> Carries(all[i], values[i]);
    var c := ReplaceItemInArray(list, which, newItem, Items(kids));
    assert k < |kids| ==> Items(kids[k := n]) == Items(kids)[k := newItem];
    forall i | 0 <= i < |all| ensures Carries(all[i], values[i]) {
      assert All(all[i]) <= Inner(all);
      ApartBelow(list, kids, n, i);
      assert old(Carries(all[i], values[i]));
    }
    if k < |kids| {
      Replaced(kids, items, n, v, k);
    } else {
      Kept(kids, items, n, v);
    }
  }

  lemma Replaced(kids: seq<Nodes>, items: seq<Json>, n: Nodes, v: Json, k: nat)
    requires CarryAll(kids + [n], items + [v]) && k < |kids| == |items|
    ensures CarryAll(kids[k := n], items[k := v])
  {
    hide Carries;
    Kept(kids, items, n, v);
    assert Carries((kids + [n])[|kids|], (items + [v])[|kids|]);
  }

  lemma Kept(kids: seq<Nodes>, items: seq<Json>, n: Nodes, v: Json)
    requires CarryAll(kids + [n], items + [v]) && |kids| == |items|
    ensures CarryAll(kids, items)
  {
    hide Carries;
    forall i | 0 <= i < |kids| ensures Carries(kids[i], items[i]) {
      assert Carries((kids + [n])[i], (items + [v])[i]);
    }
  }
}
