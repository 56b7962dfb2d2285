/** The recursive-descent parser of src/cJSON.c, walking a pointer through the text,
    filling items in place and leaving the global ep behind. */
module JsonParser {
  import opened JsonBuffers
  import opened JsonItems
  import opened JsonText
  import opened Decimals

  /** A NULL `char *`; any other pointer is an index into the text. */
  const NIL := -1

  /** Where the string body at `t` goes on after one escape, and what the escape stands for. */
  function EscapeOf(t: Text): Parsed<Text>
    requires |t| > 1 && t[0] == BACKSLASH
  {
    if t[1] == LETTER_U then Unicode(t) else Ok([Unescaped(t[1])], t[2..])
  }

  lemma UnescapePlain(t: Text, done: Text, r: Parsed<Text>)
    requires t != [] && t[0] != QUOTE && t[0] != BACKSLASH && r == Before(done, Unescape(t))
    ensures r == Before(done + [t[0]], Unescape(t[1..]))
  {
    var u := Unescape(t[1..]);
    assert Unescape(t) == Before([t[0]], u);
    hide Unescape;
    if u.Ok? { assert done + ([t[0]] + u.value) == done + [t[0]] + u.value; }
  }

  lemma UnescapeEscape(t: Text, done: Text, r: Parsed<Text>)
    requires t != [] && t[0] == BACKSLASH && r == Before(done, Unescape(t)) && !r.Wild?
    ensures |t| > 1 && EscapeOf(t).Ok? && r == Before(done + EscapeOf(t).value, Unescape(EscapeOf(t).rest))
  {
    hide Unicode;
    var e := EscapeOf(t);
    var u := Unescape(e.rest);
    assert Unescape(t) == Before(e.value, u);
    hide Unescape;
    if u.Ok? { assert done + (e.value + u.value) == done + e.value + u.value; }
  }

  lemma BeforeLonger(done: Text, r: Parsed<Text>)
    requires Before(done, r).Ok?
    ensures |done| <= |Before(done, r).value|
  {
  }

  lemma BeforeNothing(r: Parsed<Text>)
    ensures Before([], r) == r
  {
    if r.Ok? { assert [] + r.value == r.value; }
  }

  lemma SixBits(u: nat)
    ensures u / 64 / 64 == u / 4096 && u / 4096 / 64 == u / 262144
  {
  }

  /** The code unit as UTF-8, written backwards from its last byte. */
  method PutUtf8(out: array<Octet>, at: nat, unit: nat, ghost before: Text) returns (p: nat)
    requires 0 < unit < 0x200000 && Begins(out, before) && |before| == at && at + |Utf8(unit)| < out.Length
    modifies out
    ensures Begins(out, before + Utf8(unit)) && p == at + |Utf8(unit)|
  {
    SixBits(unit);
    var uc := unit;
    var len := if uc < 0x80 then 1 else if uc < 0x800 then 2 else if uc < 0x10000 then 3 else 4;
    var mark := if len == 1 then 0 else if len == 2 then 0xC0 else if len == 3 then 0xE0 else 0xF0;
    p := at + len;
    if len == 4 {
      out[at + 3], uc := 0x80 + uc % 64, uc / 64;
    }
    if len >= 3 {
      out[at + 2], uc := 0x80 + uc % 64, uc / 64;
    }
    if len >= 2 {
      out[at + 1], uc := 0x80 + uc % 64, uc / 64;
    }
    out[at] := mark + uc;
  }

  /** Values parsed so far in front of what is left. */
  function Prepend<T>(vs: seq<T>, r: Parsed<seq<T>>): Parsed<seq<T>> {
    if r.Ok? then Ok(vs + r.value, r.rest) else r
  }

  /** The array after an item and the blanks behind it. */
  function AfterItem(t: Text): Parsed<seq<Json>> {
    if At(t, 0) == COMMA then ParseItems(t[1..])
    else if At(t, 0) == RBRACKET then Ok([], t[1..])
    else Fail(t)
  }

  /** The object after a member and the blanks behind it. */
  function AfterMember(t: Text): Parsed<seq<Member>> {
    if At(t, 0) == COMMA then ParseMembers(t[1..])
    else if At(t, 0) == RBRACE then Ok([], t[1..])
    else Fail(t)
  }

  lemma PrependNone<T>(r: Parsed<seq<T>>)
    ensures Prepend([], r) == r
  {
    if r.Ok? { assert [] + r.value == r.value; }
  }

  lemma PrependTwice<T>(a: seq<T>, b: seq<T>, r: Parsed<seq<T>>)
    ensures Prepend(a, Prepend(b, r)) == Prepend(a + b, r)
  {
    if r.Ok? { assert a + (b + r.value) == a + b + r.value; }
  }

  lemma ItemsAfter(t: Text, done: seq<Json>, r: Parsed<seq<Json>>)
    requires r == Prepend(done, ParseItems(t))
    ensures var p := JsonText.ParseValue(Skip(t));
            if p.Ok? then r == Prepend(done + [p.value], AfterItem(Skip(p.rest)))
            else if p.Fail? then r == Fail(p.at) else r == Wild
  {
    hide Skip, JsonText.ParseValue;
    var p := JsonText.ParseValue(Skip(t));
    if p.Ok? {
      var u := AfterItem(Skip(p.rest));
      assert u.Ok? ==> [p.value] + [] == [p.value];
      assert ParseItems(t) == Prepend([p.value], u);
      PrependTwice(done, [p.value], u);
    }
  }

  lemma MembersAfter(t: Text, done: seq<Member>, r: Parsed<seq<Member>>)
    requires r == Prepend(done, ParseMembers(t))
    ensures var p := ParseMember(t);
            if p.Ok? then r == Prepend(done + [p.value], AfterMember(Skip(p.rest)))
            else if p.Fail? then r == Fail(p.at) else r == Wild
  {
    hide Skip, ParseMember;
    var p := ParseMember(t);
    if p.Ok? {
      var u := AfterMember(Skip(p.rest));
      assert u.Ok? ==> [p.value] + [] == [p.value];
      assert ParseMembers(t) == Prepend([p.value], u);
      PrependTwice(done, [p.value], u);
    }
  }

  /** A children list that is being built: `child` is its last, and nothing below any
      of the children leads back to it. */
  ghost predicate Building(head: Item?, child: Item, kids: seq<Nodes>)
    reads Items(kids)
  {
    && kids != [] && kids[|kids| - 1].item == child && Linked(Items(kids), head)
    && forall i :: 0 <= i < |kids| ==> child !in Inner(kids[i].kids)
  }

  lemma BuiltMore(head: Item?, kids: seq<Nodes>, n: Nodes)
    requires Linked(Items(kids) + [n.item], head) && n.item !in Inner(kids) && n.item !in Inner(n.kids)
    ensures Building(head, n.item, kids + [n])
  {
    hide Linked, Inner;
    assert Items(kids + [n]) == Items(kids) + [n.item];
    forall i | 0 <= i < |kids| ensures n.item !in Inner(kids[i].kids) {
      assert Inner(kids[i].kids) <= All(kids[i]) <= Inner(kids);
    }
  }

  lemma CarryMore(kids: seq<Nodes>, items: seq<Json>, n: Nodes, v: Json)
    requires CarryAll(kids, items) && Carries(n, v)
    ensures CarryAll(kids + [n], items + [v])
  {
    hide Carries;
  }

  lemma InnerGrows(kids: seq<Nodes>, n: Nodes)
    ensures Inner(kids + [n]) == Inner(kids) + All(n) && All(n) == {n.item} + Inner(n.kids)
    ensures Items(kids + [n]) == Items(kids) + [n.item]
  {
    assert (kids + [n])[..|kids|] == kids;
  }

  lemma CarryMoreMembers(kids: seq<Nodes>, members: seq<Member>, n: Nodes, m: Member)
    requires CarryMembers(kids, members) && Carries(n, m.value) && n.item.name == Str(m.name)
    ensures CarryMembers(kids + [n], members + [m])
  {
    hide Carries;
  }

  lemma BuiltLinked(head: Item?, child: Item, kids: seq<Nodes>)
    requires Building(head, child, kids)
    ensures Linked(Items(kids), head)
  {
  }

  lemma {:induction false} AloneBuilt(n: Nodes, v: Json)
    requires n.item.next == null && n.item.prev == null && n.item !in Inner(n.kids) && Carries(n, v)
    ensures Building(n.item, n.item, [n]) && CarryAll([n], [v])
  {
    hide Carries, Inner;
  }

  lemma {:induction false} AloneNamed(n: Nodes, m: Member)
    requires n.item.next == null && n.item.prev == null && n.item !in Inner(n.kids)
    requires Carries(n, m.value) && n.item.name == Str(m.name)
    ensures Building(n.item, n.item, [n])
    ensures CarryMembers([n], [m])
  {
    hide Carries, Inner;
  }

  class Parser {
    const text: Text
    var ep: int

    constructor (text: Text)
      ensures this.text == text && ep == NIL
    {
      this.text, ep := text, NIL;
    }

    /** A parser's return value and ep: the place after the value and ep as it was, or NULL
        and ep at the failure. */
    ghost predicate Ends<T>(p: Parsed<T>, r: int, before: int)
      reads `ep
    {
      if p.Ok? then 0 <= r <= |text| && text[r..] == p.rest && ep == before
      else p.Fail? && r == NIL && 0 <= ep <= |text| && text[ep..] == p.at
    }

    /** The same, with what follows the value skipped already. */
    ghost predicate EndsSkipped<T>(p: Parsed<T>, r: int, before: int)
      reads `ep
    {
      if p.Ok? then 0 <= r <= |text| && text[r..] == Skip(p.rest) && ep == before
      else p.Fail? && r == NIL && 0 <= ep <= |text| && text[ep..] == p.at
    }

    /** skip */
    method SkipBlanks(at: int) returns (r: int)
      requires NIL <= at <= |text|
      ensures at == NIL ==> r == NIL
      ensures at != NIL ==> at <= r <= |text| && text[r..] == Skip(text[at..])
      ensures at != NIL ==> (forall i :: at <= i < r ==> text[i] <= 32) && (r < |text| ==> text[r] > 32)
    {
      r := at;
      while r != NIL && r < |text| && text[r] <= SPACE
        invariant at <= r <= |text| && (at == NIL ==> r == NIL)
        invariant at != NIL ==> forall i :: at <= i < r ==> text[i] <= 32
        invariant at != NIL ==> r != NIL && Skip(text[r..]) == Skip(text[at..])
        decreases |text| - r
      {
        assert text[r..][1..] == text[r + 1..];
        r := r + 1;
      }
    }

    // ----- strings -----

    /** The size loop of parse_string. */
    method CountString(at: nat) returns (len: nat)
      requires at <= |text| && Walks(text[at..])
      ensures len == Counted(text[at..])
    {
      len := 0;
      var ptr := at;
      while At(text, ptr) != QUOTE && At(text, ptr) != 0
        invariant at <= ptr <= |text| && Walks(text[ptr..])
        invariant len + Counted(text[ptr..]) == Counted(text[at..])
        decreases |text| - ptr
      {
        ghost var t := text[ptr..];
        assert t[1..] == text[ptr + 1..];
        len := len + 1;
        if text[ptr] == BACKSLASH {
          assert t[2..] == text[ptr + 2..];
          ptr := ptr + 1;
        }
        ptr := ptr + 1;
      }
    }

    lemma HexAt(i: nat, k: nat)
      requires i <= |text| && FourHex(text[i..], k)
      ensures FourHex(text, i + k) && FourHexValue(text, i + k) == FourHexValue(text[i..], k)
    {
    }

    /** A `u` escape: src/cJSON.c:167-189. */
    method DecodeUnicode(at: nat, out: array<Octet>, p: nat, ghost before: Text) returns (ptr: nat, q: nat)
      requires at + 1 < |text| && text[at] == BACKSLASH && text[at + 1] == LETTER_U
      requires Begins(out, before) && p == |before|
      requires Unicode(text[at..]).Ok? && p + |Unicode(text[at..]).value| < out.Length
      modifies out
      ensures ptr <= |text| && text[ptr..] == Unicode(text[at..]).rest
      ensures Begins(out, before + Unicode(text[at..]).value) && q == p + |Unicode(text[at..]).value|
    {
      hide Begins, FourHexValue, Utf8, Joined;
      ghost var t := text[at..];
      HexAt(at, 2);
      q := p;
      assert before + [] == before;
      var uc := FourHexValue(text, at + 2);
      ptr := at + 6;
      assert t[6..] == text[ptr..] && At(t, 6) == At(text, ptr) && At(t, 7) == At(text, ptr + 1);
      if LowSurrogate(uc) || uc == 0 {
        return;
      }
      if HighSurrogate(uc) {
        if At(text, ptr) != BACKSLASH || At(text, ptr + 1) != LETTER_U {
          return;
        }
        HexAt(at, 8);
        var uc2 := FourHexValue(text, ptr + 2);
        ptr := ptr + 6;
        assert t[12..] == text[ptr..];
        if !LowSurrogate(uc2) {
          return;
        }
        uc := Joined(uc, uc2);
      }
      q := PutUtf8(out, p, uc, before);
    }

    /** One escape of the decoding loop: src/cJSON.c:159-192. */
    method DecodeEscape(at: nat, out: array<Octet>, p: nat, ghost before: Text) returns (ptr: nat, q: nat)
      requires at + 1 < |text| && text[at] == BACKSLASH
      requires Begins(out, before) && p == |before|
      requires EscapeOf(text[at..]).Ok? && p + |EscapeOf(text[at..]).value| < out.Length
      modifies out
      ensures ptr <= |text| && text[ptr..] == EscapeOf(text[at..]).rest
      ensures Begins(out, before + EscapeOf(text[at..]).value) && q == p + |EscapeOf(text[at..]).value|
    {
      hide Begins, Unicode;
      if text[at + 1] == LETTER_U {
        ptr, q := DecodeUnicode(at, out, p, before);
      } else {
        var c := text[at + 1];
        if c == 98 {
          c := 8;
        } else if c == 102 {
          c := 12;
        } else if c == 110 {
          c := 10;
        } else if c == 114 {
          c := 13;
        } else if c == 116 {
          c := 9;
        }
        Put(out, p, c, before);
        ptr, q := at + 2, p + 1;
        assert text[at..][2..] == text[ptr..];
      }
    }

    /** The decoding loop: src/cJSON.c:153-195. */
    method DecodeString(at: nat, out: array<Octet>) returns (ptr: nat, p: nat)
      requires at <= |text| && Unescape(text[at..]).Ok? && |Unescape(text[at..]).value| < out.Length
      modifies out
      ensures p == |Unescape(text[at..]).value| && Holds(out, Unescape(text[at..]).value)
      ensures ptr <= |text| && Unescape(text[at..]).rest == if At(text,
              ptr) == QUOTE then text[ptr + 1..] else text[ptr..]
    {
      hide Unescape, Begins, EscapeOf;
      ghost var r, done := Unescape(text[at..]), [];
      BeginsNone(out);
      BeforeNothing(r);
      ptr, p := at, 0;
      while At(text, ptr) != QUOTE && At(text, ptr) != 0
        invariant ptr <= |text| && Begins(out, done) && p == |done|
        invariant r == Before(done, Unescape(text[ptr..]))
        decreases |text| - ptr
      {
        ghost var t := text[ptr..];
        if text[ptr] != BACKSLASH {
          UnescapePlain(t, done, r);
          BeforeLonger(done + [t[0]], Unescape(t[1..]));
          Put(out, p, text[ptr], done);
          done := done + [t[0]];
          assert t[1..] == text[ptr + 1..];
          ptr, p := ptr + 1, p + 1;
        } else {
          UnescapeEscape(t, done, r);
          BeforeLonger(done + EscapeOf(t).value, Unescape(EscapeOf(t).rest));
          EscapeShorter(t);
          ptr, p := DecodeEscape(ptr, out, p, done);
          done := done + EscapeOf(t).value;
        }
      }
      UnescapeEnd(text[ptr..]);
      Finish(out, p, done);
      assert done + [] == done;
    }

    lemma EscapeShorter(t: Text)
      requires |t| > 1 && t[0] == BACKSLASH && EscapeOf(t).Ok?
      ensures |EscapeOf(t).rest| < |t|
    {
      hide Unicode;
    }

    lemma UnescapeEnd(t: Text)
      requires At(t, 0) == QUOTE || t == []
      ensures Unescape(t) == Ok([], if t == [] then t else t[1..])
    {
    }

    /** parse_string */
    method ParseString(item: Item, str: nat) returns (r: int)
      requires str <= |text| && !JsonText.ParseString(text[str..]).Wild?
      modifies `ep, item`valuestring, item`kind
      ensures var p := JsonText.ParseString(text[str..]);
              Ends(p, r, old(ep)) && (p.Ok? ==> item.kind == KIND_STRING && item.valuestring == Str(p.value))
    {
      if At(text, str) != QUOTE {
        ep := str;
        return NIL;
      }
      assert text[str..][1..] == text[str + 1..];
      assert !JsonText.ParseString(text[str..]).Fail?;
      UnescapeFits(text[str + 1..]);
      hide Unescape, Counted, Walks;
      var len := CountString(str + 1);
      var out := new Octet[len + 1](_ => 0);
      var ptr, p := DecodeString(str + 1, out);
      if At(text, ptr) == QUOTE {
        ptr := ptr + 1;
      }
      var s := Contents(out, p, JsonText.ParseString(text[str..]).value);
      item.valuestring := Str(s);
      item.kind := KIND_STRING;
      r := ptr;
    }

    // ----- numbers -----

    /** A run of digits. */
    method ParseDigits(at: nat, from: nat) returns (r: nat, n: nat)
      requires at <= |text|
      ensures at <= r <= |text| && (n, text[r..]) == Digits(text[at..], from)
    {
      r, n := at, from;
      while IsDigit(At(text, r))
        invariant at <= r <= |text| && Digits(text[r..], n) == Digits(text[at..], from)
        decreases |text| - r
      {
        assert text[r..][1..] == text[r + 1..];
        n := n * 10 + (At(text, r) - 48);
        r := r + 1;
      }
    }

    /** The exponent: src/cJSON.c:105-108. */
    method ParseExponent(at: nat) returns (r: nat, e: int)
      requires at <= |text|
      ensures at <= r <= |text| && (e, text[r..]) == Exponent(text[at..])
    {
      r, e := at, 0;
      if At(text, r) == 101 || At(text, r) == 69 {
        assert text[at..][1..] == text[at + 1..] && At(text[at..], 1) == At(text, at + 1);
        r := r + 1;
        var sign: int := 1;
        if At(text, r) == 43 {
          r := r + 1;
          assert text[at..][2..] == text[at + 2..];
        } else if At(text, r) == MINUS {
          sign := -1;
          r := r + 1;
          assert text[at..][2..] == text[at + 2..];
        }
        var n;
        r, n := ParseDigits(r, 0);
        e := n * sign;
      }
    }

    /** parse_number: mant * 10^exp for the double it computes. */
    method ParseNumber(item: Item, num: nat) returns (r: nat)
      requires num <= |text| && (At(text, num) == MINUS || IsDigit(At(text, num)))
      modifies item`kind, item`mant, item`exp
      ensures num < r <= |text| && item.kind == KIND_NUMBER
      ensures (Number(item.mant, item.exp), text[r..]) == JsonText.ParseNumber(text[num..])
    {
      hide Digits, Exponent;
      ghost var t := text[num..];
      var negative, scale := false, 0;
      r := num;
      if text[r] == MINUS {
        negative, r := true, r + 1;
        assert t[1..] == text[r..];
      }
      if At(text, r) == ZERO {
        assert text[r..][1..] == text[r + 1..];
        r := r + 1;
      }
      var n: nat := 0;
      if 49 <= At(text, r) <= 57 {
        r, n := ParseDigits(r, n);
      }
      if At(text, r) == POINT && IsDigit(At(text, r + 1)) {
        assert text[r..][1..] == text[r + 1..];
        var point := r + 1;
        r, n := ParseDigits(point, n);
        scale := point - r;
      }
      var e;
      r, e := ParseExponent(r);
      var digits: int := n;
      item.mant := if negative then -digits else digits;
      item.exp := scale + e;
      item.kind := KIND_NUMBER;
    }

    // ----- values -----

    /** parse_value.  `n` is the tree of items below `item` when it succeeds. */
    method ParseValue(item: Item, value: int) returns (r: int, ghost n: Nodes)
      requires NIL <= value <= |text| && item.child == null
      requires value != NIL ==> !JsonText.ParseValue(text[value..]).Wild?
      modifies `ep, item`child, item`kind, item`valuestring, item`mant, item`exp
      ensures value == NIL ==> r == NIL && ep == old(ep)
      ensures value != NIL ==>
                var p := JsonText.ParseValue(text[value..]);
                Ends(p, r, old(ep)) && (p.Ok? ==> Carries(n, p.value))
      ensures n.item == item && fresh(Inner(n.kids))
      decreases |text| - value, 1
    {
      n := Nodes(item, []);
      if value == NIL {
        return NIL, n;
      }
      ghost var t := text[value..];
      assert At(t, 0) == At(text, value);
      if Starts(text[value..], NULL_TEXT) {
        item.kind := KIND_NULL;
        r := value + 4;
      } else if Starts(text[value..], FALSE_TEXT) {
        item.kind := KIND_FALSE;
        r := value + 5;
      } else if Starts(text[value..], TRUE_TEXT) {
        item.kind := KIND_TRUE;
        r := value + 4;
      } else if At(text, value) == QUOTE {
        r := ParseString(item, value);
      } else if At(text, value) == MINUS || IsDigit(At(text, value)) {
        r := ParseNumber(item, value);
      } else if At(text, value) == LBRACKET {
        r, n := ParseArray(item, value);
      } else if At(text, value) == LBRACE {
        r, n := ParseObject(item, value);
      } else {
        ep := value;
        r := NIL;
      }
    }

    /** An item with the blanks on both sides of it: src/cJSON.c:311 and 319. */
    method ParseElement(child: Item, at: nat) returns (r: int, ghost n: Nodes)
      requires at <= |text| && child.child == null && !JsonText.ParseValue(Skip(text[at..])).Wild?
      modifies `ep, child`child, child`kind, child`valuestring, child`mant, child`exp
      ensures var p := JsonText.ParseValue(Skip(text[at..]));
              EndsSkipped(p, r, old(ep)) && (p.Ok? ==> r > at && Carries(n, p.value))
      ensures n.item == child && fresh(Inner(n.kids))
      decreases |text| - at, 2
    {
      hide Carries, JsonText.ParseValue, Skip, Inner;
      var v := SkipBlanks(at);
      r, n := ParseValue(child, v);
      TreeAllocated(n);
      label parsed:
      r := SkipBlanks(r);
      ghost var p := JsonText.ParseValue(Skip(text[at..]));
      if p.Ok? {
        assert Inner(n.kids) <= All(n);
        assert Carries(n, p.value) == old@parsed(Carries(n, p.value));
      }
    }

    /** A new item behind `child`: src/cJSON.c:317-318 and 400-401. */
    method AppendItem(child: Item, ghost head: Item?, ghost kids: seq<Nodes>) returns (item: Item)
      requires Building(head, child, kids)
      modifies child`next
      ensures fresh(item) && item.child == null && Linked(Items(kids) + [item], head) && item !in Inner(kids)
      ensures forall i, v :: 0 <= i < |kids| && old(Carries(kids[i], v)) ==> Carries(kids[i], v)
    {
      ListAllocated(kids);
      item := new Item();
      Link(child, item, head, kids);
    }

    /** The same, for an array. */
    method AppendElement(child: Item, ghost head: Item?, ghost kids: seq<Nodes>, ghost items: seq<Json>)
      returns (item: Item)
      requires Building(head, child, kids) && CarryAll(kids, items)
      modifies child`next
      ensures fresh(item) && item.child == null && Linked(Items(kids) + [item], head) && item !in Inner(kids)
      ensures CarryAll(kids, items)
    {
      hide Carries, Inner, Linked, Building;
      item := AppendItem(child, head, kids);
    }

    /** The two pointers between `child` and the item behind it. */
    method Link(child: Item, item: Item, ghost head: Item?, ghost kids: seq<Nodes>)
      requires Building(head, child, kids) && item !in Inner(kids) && item.next == null
      modifies child`next, item`prev
      ensures Linked(Items(kids) + [item], head)
      ensures forall i, v :: 0 <= i < |kids| && old(Carries(kids[i], v)) ==> Carries(kids[i], v)
    {
      hide Carries, Inner;
      ghost var s := Items(kids);
      assert forall i :: 0 <= i < |s| - 1 ==> s[i].next == Next(s, i) && s[i] != child;
      child.next := item;
      item.prev := child;
    }

    /** A comma and the item after it: src/cJSON.c:314-321.  `q` is what the whole list parses to. */
    method ParseNext(last: Item, at: nat, ghost head: Item?, ghost kids: seq<Nodes>, ghost items: seq<Json>,
                     ghost q: Parsed<seq<Json>>)
      returns (child: Item, r: int, ghost more: seq<Nodes>, ghost values: seq<Json>)
      requires ItemsLeft(q, items, at) && At(text, at) == COMMA
      requires Building(head, last, kids) && CarryAll(kids, items)
      modifies `ep, last`next
      ensures if r == NIL then FailedAt(q) else r > at && ItemsLeft(q, values, r) && ep == old(ep)
      ensures NIL <= r <= |text|
      ensures r != NIL ==> Building(head, child, more) && CarryAll(more, values)
      ensures fresh(child) && fresh(Inner(more) - Inner(kids))
      decreases |text| - at, 3
    {
      hide *;
      ItemsNext(q, items, at);
      ListAllocated(kids);
      child := AppendElement(last, head, kids, items);
      label linked:
      ghost var p, n := JsonText.ParseValue(Skip(text[at + 1..])), Nodes(child, []);
      r, n := ParseElement(child, at + 1);
      InnerGrows(kids, n);
      more, values := kids + [n], items;
      if p.Ok? {
        values := items + [p.value];
        assert CarryAll(kids, items) == old@linked(CarryAll(kids, items));
        CarryMore(kids, items, n, p.value);
        BuiltMore(head, kids, n);
      }
      ElementLeft(q, items, at + 1, r, old(ep));
    }

    /** The first item of an array, in `child`: src/cJSON.c:311-312. */
    method ParseFirst(child: Item, at: nat)
      returns (r: int, ghost kids: seq<Nodes>, ghost items: seq<Json>)
      requires at <= |text| && !ParseItems(text[at..]).Wild?
      requires child.child == null && child.next == null && child.prev == null
      modifies `ep, child`child, child`kind, child`valuestring, child`mant, child`exp
      ensures var q := ParseItems(text[at..]);
              if r == NIL then FailedAt(q) else r > at && ItemsLeft(q, items, r) && ep == old(ep)
      ensures NIL <= r <= |text|
      ensures r != NIL ==> Building(child, child, kids) && CarryAll(kids, items)
      ensures fresh(Inner(kids) - {child})
      decreases |text| - at, 3
    {
      ghost var q := ParseItems(text[at..]);
      PrependNone(q);
      ItemsAfter(text[at..], [], q);
      hide *;
      ghost var p, n := JsonText.ParseValue(Skip(text[at..])), Nodes(child, []);
      r, n := ParseElement(child, at);
      InnerGrows([], n);
      kids, items := [n], [];
      assert [] + kids == kids;
      if p.Ok? {
        items := [p.value];
        AloneBuilt(n, p.value);
      }
      ElementLeft(q, [], at, r, old(ep));
      assert p.Ok? ==> [] + items == items;
    }

    lemma FailedEnds<T>(q: Parsed<T>, before: int)
      requires FailedAt(q)
      ensures q.Fail? && Ends(q, NIL, before)
    {
    }

    lemma FailedHere<T>(q: Parsed<T>)
      requires q.Fail? && 0 <= ep <= |text| && text[ep..] == q.at
      ensures FailedAt(q)
    {
    }

    lemma ItemsEnd(q: Parsed<seq<Json>>, items: seq<Json>, r: int)
      requires 0 <= r && ItemsLeft(q, items, r) && At(text, r) != COMMA
      ensures if At(text, r) == RBRACKET then q.Ok? && q.value == items && Ends(q, r + 1, ep) else q == Fail(text[r..])
    {
      assert items + [] == items;
      if r < |text| { assert text[r..][1..] == text[r + 1..]; }
    }

    lemma ItemsNext(q: Parsed<seq<Json>>, items: seq<Json>, at: nat)
      requires ItemsLeft(q, items, at) && At(text, at) == COMMA
      ensures at < |text| && q == Prepend(items, ParseItems(text[at + 1..])) && !q.Wild?
      ensures !JsonText.ParseValue(Skip(text[at + 1..])).Wild?
    {
      assert text[at..][1..] == text[at + 1..];
      ItemsAfter(text[at + 1..], items, q);
    }

    /** What one more item makes of the list. */
    lemma ElementLeft(q: Parsed<seq<Json>>, items: seq<Json>, at: nat, r: int, before: int)
      requires at <= |text| && q == Prepend(items, ParseItems(text[at..])) && !q.Wild?
      requires EndsSkipped(JsonText.ParseValue(Skip(text[at..])), r, before)
      ensures var p := JsonText.ParseValue(Skip(text[at..]));
              if r == NIL then p.Fail? && FailedAt(q) else p.Ok? && ItemsLeft(q, items + [p.value], r) && ep == before
      ensures NIL <= r <= |text|
    {
      ItemsAfter(text[at..], items, q);
      hide AfterItem, ParseItems, JsonText.ParseValue, Skip, Prepend;
    }

    /** The list so far in front of the text from `r` on. */
    ghost predicate ItemsLeft(q: Parsed<seq<Json>>, items: seq<Json>, r: int) {
      0 <= r <= |text| && !q.Wild? && q == Prepend(items, AfterItem(text[r..]))
    }

    ghost predicate FailedAt<T>(q: Parsed<T>)
      reads `ep
    {
      q.Fail? && 0 <= ep <= |text| && text[ep..] == q.at
    }

    /** parse_array */
    method ParseArray(item: Item, value: nat) returns (r: int, ghost n: Nodes)
      requires value <= |text| && At(text, value) == LBRACKET && item.child == null
      requires !JsonText.ParseArray(text[value..]).Wild?
      modifies `ep, item`child, item`kind
      ensures var p := JsonText.ParseArray(text[value..]);
              Ends(p, r, old(ep)) && (p.Ok? ==> Carries(n, p.value))
      ensures n.item == item && fresh(Inner(n.kids))
      decreases |text| - value, 0
    {
      item.kind := KIND_ARRAY;
      n := Nodes(item, []);
      assert text[value..][1..] == text[value + 1..];
      var v := SkipBlanks(value + 1);
      if At(text, v) == RBRACKET {
        assert text[v..][1..] == text[v + 1..];
        return v + 1, n;
      }
      r, n := ParseItemList(item, v);
    }

    /** The items of an array and its closing bracket: src/cJSON.c:309-324. */
    method ParseItemList(item: Item, at: nat) returns (r: int, ghost n: Nodes)
      requires at <= |text| && item.child == null && !ParseItems(text[at..]).Wild?
      modifies `ep, item`child
      ensures var q := ParseItems(text[at..]);
              Ends(q, r, old(ep)) && (q.Ok? ==> Linked(Items(n.kids), item.child) && CarryAll(n.kids, q.value))
      ensures n.item == item && fresh(Inner(n.kids))
      decreases |text| - at, 4
    {
      hide *;
      ghost var q := ParseItems(text[at..]);
      var child := new Item();
      item.child := child;
      ghost var head, kids, items;
      head := child;
      label first:
      r, kids, items := ParseFirst(child, at);
      forall x | x in Inner(kids) ensures fresh(x) {
        if x != child { assert x in Inner(kids) - {child} && fresh@first(x); }
      }
      n := Nodes(item, []);
      while r != NIL && At(text, r) == COMMA
        invariant if r == NIL then FailedAt(q) else r > at && ItemsLeft(q, items, r) && ep == old(ep)
        invariant r != NIL ==> Building(head, child, kids) && CarryAll(kids, items)
        invariant NIL <= r <= |text| && fresh(child) && fresh(Inner(kids)) && item.child == head
        decreases if r == NIL then 0 else |text| - r + 1
      {
        ghost var before := kids;
        label next:
        child, r, kids, items := ParseNext(child, r, head, kids, items, q);
        forall x | x in Inner(kids) ensures fresh(x) {
          if x !in Inner(before) { assert x in Inner(kids) - Inner(before) && fresh@next(x); }
        }
      }
      n := Nodes(item, kids);
      if r == NIL {
        FailedEnds(q, old(ep));
        return NIL, n;
      }
      ItemsEnd(q, items, r);
      BuiltLinked(head, child, kids);
      if At(text, r) == RBRACKET {
        return r + 1, n;
      }
      ep := r;
      FailedHere(q);
      FailedEnds(q, old(ep));
      r := NIL;
    }

    // ----- objects -----

    /** A name, a colon and a value with the blanks behind it: src/cJSON.c:390-395 and 402-407. */
    method ParseNamed(child: Item, at: nat) returns (r: int, ghost n: Nodes)
      requires at <= |text| && child.child == null && !ParseMember(text[at..]).Wild?
      modifies `ep, child`child, child`kind, child`valuestring, child`mant, child`exp, child`name
      ensures var p := ParseMember(text[at..]);
              && EndsSkipped(p, r, old(ep))
              && (p.Ok? ==> r > at && child.name == Str(p.value.name) && Carries(n, p.value.value))
      ensures n.item == child && fresh(Inner(n.kids))
      decreases |text| - at, 3
    {
      hide Carries, JsonText.ParseValue, JsonText.ParseString, Skip;
      n := Nodes(child, []);
      var v := SkipBlanks(at);
      var w := ParseString(child, v);
      w := SkipBlanks(w);
      if w == NIL {
        return NIL, n;
      }
      child.name := child.valuestring;
      child.valuestring := NoString;
      assert At(text[w..], 0) == At(text, w);
      if At(text, w) != COLON {
        ep := w;
        return NIL, n;
      }
      assert text[w..][1..] == text[w + 1..];
      r, n := ParseElement(child, w + 1);
    }

    /** A new item behind the last member. */
    method AppendMember(child: Item, ghost head: Item?, ghost kids: seq<Nodes>, ghost members: seq<Member>)
      returns (item: Item)
      requires Building(head, child, kids) && CarryMembers(kids, members)
      modifies child`next
      ensures fresh(item) && item.child == null && Linked(Items(kids) + [item], head) && item !in Inner(kids)
      ensures CarryMembers(kids, members)
    {
      hide Carries, Inner, Linked, Building;
      item := AppendItem(child, head, kids);
    }

    /** A comma and the member after it: src/cJSON.c:397-408.  `q` is what the whole list parses to. */
    method ParseNextMember(last: Item, at: nat, ghost head: Item?, ghost kids: seq<Nodes>, ghost members: seq<Member>,
                           ghost q: Parsed<seq<Member>>)
      returns (child: Item, r: int, ghost more: seq<Nodes>, ghost values: seq<Member>)
      requires MembersLeft(q, members, at) && At(text, at) == COMMA
      requires Building(head, last, kids) && CarryMembers(kids, members)
      modifies `ep, last`next
      ensures if r == NIL then FailedAt(q) else r > at && MembersLeft(q, values, r) && ep == old(ep)
      ensures NIL <= r <= |text|
      ensures r != NIL ==> Building(head, child, more) && CarryMembers(more, values)
      ensures fresh(child) && fresh(Inner(more) - Inner(kids))
      decreases |text| - at, 3
    {
      hide *;
      MembersNext(q, members, at);
      ListAllocated(kids);
      child := AppendMember(last, head, kids, members);
      label linked:
      ghost var p, n := ParseMember(text[at + 1..]), Nodes(child, []);
      r, n := ParseNamed(child, at + 1);
      InnerGrows(kids, n);
      more, values := kids + [n], members;
      if p.Ok? {
        values := members + [p.value];
        assert CarryMembers(kids, members) == old@linked(CarryMembers(kids, members));
        CarryMoreMembers(kids, members, n, p.value);
        BuiltMore(head, kids, n);
      }
      MemberLeft(q, members, at + 1, r, old(ep));
    }

    /** The first member of an object, in `child`: src/cJSON.c:390-395. */
    method ParseFirstMember(child: Item, at: nat)
      returns (r: int, ghost kids: seq<Nodes>, ghost members: seq<Member>)
      requires at <= |text| && !ParseMembers(text[at..]).Wild?
      requires child.child == null && child.next == null && child.prev == null
      modifies `ep, child`child, child`kind, child`valuestring, child`mant, child`exp, child`name
      ensures var q := ParseMembers(text[at..]);
              if r == NIL then FailedAt(q) else r > at && MembersLeft(q, members, r) && ep == old(ep)
      ensures NIL <= r <= |text|
      ensures r != NIL ==> Building(child, child, kids) && CarryMembers(kids, members)
      ensures fresh(Inner(kids) - {child})
      decreases |text| - at, 4
    {
      ghost var q := ParseMembers(text[at..]);
      PrependNone(q);
      MembersAfter(text[at..], [], q);
      hide *;
      ghost var p, n := ParseMember(text[at..]), Nodes(child, []);
      r, n := ParseNamed(child, at);
      InnerGrows([], n);
      kids, members := [n], [];
      assert [] + kids == kids;
      if p.Ok? {
        members := [p.value];
        AloneNamed(n, p.value);
      }
      MemberLeft(q, [], at, r, old(ep));
      assert p.Ok? ==> [] + members == members;
    }

    lemma MembersEnd(q: Parsed<seq<Member>>, members: seq<Member>, r: int)
      requires 0 <= r && MembersLeft(q, members, r) && At(text, r) != COMMA
      ensures if At(text, r) == RBRACE then q.Ok? && q.value == members && Ends(q, r + 1, ep) else q == Fail(text[r..])
    {
      assert members + [] == members;
      if r < |text| { assert text[r..][1..] == text[r + 1..]; }
    }

    lemma MembersNext(q: Parsed<seq<Member>>, members: seq<Member>, at: nat)
      requires MembersLeft(q, members, at) && At(text, at) == COMMA
      ensures at < |text| && q == Prepend(members, ParseMembers(text[at + 1..])) && !q.Wild?
      ensures !ParseMember(text[at + 1..]).Wild?
    {
      assert text[at..][1..] == text[at + 1..];
      MembersAfter(text[at + 1..], members, q);
    }

    /** What one more member makes of the list. */
    lemma MemberLeft(q: Parsed<seq<Member>>, members: seq<Member>, at: nat, r: int, before: int)
      requires at <= |text| && q == Prepend(members, ParseMembers(text[at..])) && !q.Wild?
      requires EndsSkipped(ParseMember(text[at..]), r, before)
      ensures var p := ParseMember(text[at..]);
              if r == NIL then p.Fail? && FailedAt(q)
              else p.Ok? && MembersLeft(q, members + [p.value], r) && ep == before
      ensures NIL <= r <= |text|
    {
      MembersAfter(text[at..], members, q);
      hide AfterMember, ParseMembers, ParseMember, Skip, Prepend;
    }

    /** The members so far in front of the text from `r` on. */
    ghost predicate MembersLeft(q: Parsed<seq<Member>>, members: seq<Member>, r: int) {
      0 <= r <= |text| && !q.Wild? && q == Prepend(members, AfterMember(text[r..]))
    }

    /** parse_object */
    method ParseObject(item: Item, value: nat) returns (r: int, ghost n: Nodes)
      requires value <= |text| && At(text, value) == LBRACE && item.child == null
      requires !JsonText.ParseObject(text[value..]).Wild?
      modifies `ep, item`child, item`kind
      ensures var p := JsonText.ParseObject(text[value..]);
              Ends(p, r, old(ep)) && (p.Ok? ==> Carries(n, p.value))
      ensures n.item == item && fresh(Inner(n.kids))
      decreases |text| - value, 0
    {
      item.kind := KIND_OBJECT;
      n := Nodes(item, []);
      assert text[value..][1..] == text[value + 1..];
      var v := SkipBlanks(value + 1);
      if At(text, v) == RBRACE {
        assert text[v..][1..] == text[v + 1..];
        return v + 1, n;
      }
      r, n := ParseMemberList(item, v);
    }

    /** The members of an object and its closing brace: src/cJSON.c:388-411. */
    method ParseMemberList(item: Item, at: nat) returns (r: int, ghost n: Nodes)
      requires at <= |text| && item.child == null && !ParseMembers(text[at..]).Wild?
      modifies `ep, item`child
      ensures var q := ParseMembers(text[at..]);
              Ends(q, r, old(ep)) && (q.Ok? ==> Linked(Items(n.kids), item.child) && CarryMembers(n.kids, q.value))
      ensures n.item == item && fresh(Inner(n.kids))
      decreases |text| - at, 5
    {
      hide *;
      ghost var q := ParseMembers(text[at..]);
      var child := new Item();
      item.child := child;
      ghost var head, kids, members;
      head := child;
      label first:
      r, kids, members := ParseFirstMember(child, at);
      forall x | x in Inner(kids) ensures fresh(x) {
        if x != child { assert x in Inner(kids) - {child} && fresh@first(x); }
      }
      n := Nodes(item, []);
      while r != NIL && At(text, r) == COMMA
        invariant if r == NIL then FailedAt(q) else r > at && MembersLeft(q, members, r) && ep == old(ep)
        invariant r != NIL ==> Building(head, child, kids) && CarryMembers(kids, members)
        invariant NIL <= r <= |text| && fresh(child) && fresh(Inner(kids)) && item.child == head
        decreases if r == NIL then 0 else |text| - r + 1
      {
        ghost var before := kids;
        label next:
        child, r, kids, members := ParseNextMember(child, r, head, kids, members, q);
        forall x | x in Inner(kids) ensures fresh(x) {
          if x !in Inner(before) { assert x in Inner(kids) - Inner(before) && fresh@next(x); }
        }
      }
      n := Nodes(item, kids);
      if r == NIL {
        FailedEnds(q, old(ep));
        return NIL, n;
      }
      MembersEnd(q, members, r);
      BuiltLinked(head, child, kids);
      if At(text, r) == RBRACE {
        return r + 1, n;
      }
      ep := r;
      FailedHere(q);
      FailedEnds(q, old(ep));
      r := NIL;
    }

    /** cJSON_Parse: the tree that the text stands for, or NULL and ep at the place where the
        text is wrong.  For a NULL text it returns NULL without setting ep.  Which texts are
        shut out is told by UnescapeWild; that all escapes are complete is enough. */
    method Parse(value: int) returns (c: Item?, ghost n: Nodes)
      requires NIL <= value <= |text|
      requires value != NIL ==> !JsonText.Parse(text[value..]).Wild?
      modifies `ep
      ensures value == NIL ==> c == null && ep == NIL
      ensures value != NIL ==> (c != null <==> JsonText.Parse(text[value..]).Ok?) && (c != null <==> ep == NIL)
      ensures c != null ==>
                && value != NIL && n.item == c && fresh(c) && fresh(Inner(n.kids))
                && Carries(n, JsonText.Parse(text[value..]).value)
      ensures value != NIL && c == null ==> 0 <= ep <= |text| && JsonText.Parse(text[value..]) == Fail(text[ep..])
    {
      hide Carries, JsonText.ParseValue, Skip, Inner;
      c := new Item();
      n := Nodes(c, []);
      ep := NIL;
      var v := SkipBlanks(value);
      var r;
      r, n := ParseValue(c, v);
      if r == NIL {
        c := null;
      }
    }
  }
}
