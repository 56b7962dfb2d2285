/** The printers of src/cJSON.c: a pass that adds up sizes, a buffer of that
    size, and a pass that fills it in place. */
module JsonPrinter {
  import opened JsonBuffers
  import opened JsonItems
  import opened JsonText
  import opened Decimals

  lemma {:induction false} EscapesAppend(s: Text, c: Char)
    ensures Escapes(s + [c]) == Escapes(s) + Escaped(c)
  {
    hide Escaped;
    if s == [] {
      assert [] + [c] == [c] && [c][1..] == [];
    } else {
      assert (s + [c])[1..] == s[1..] + [c];
      EscapesAppend(s[1..], c);
    }
  }

  lemma EscapesStep(s: Text, i: nat)
    requires i < |s|
    ensures Escapes(s[..i + 1]) == Escapes(s[..i]) + Escaped(s[i])
    ensures |Escapes(s[..i])| + |Escaped(s[i])| <= |Escapes(s)|
  {
    assert s[..i + 1] == s[..i] + [s[i]];
    EscapesAppend(s[..i], s[i]);
    EscapesShorter(s, i + 1);
  }

  lemma {:induction false} EscapesShorter(s: Text, i: nat)
    requires i <= |s|
    ensures |Escapes(s[..i])| <= |Escapes(s)|
    decreases |s| - i
  {
    hide Escaped;
    if i == |s| {
      assert s[..i] == s;
    } else {
      assert s[..i + 1] == s[..i] + [s[i]];
      EscapesAppend(s[..i], s[i]);
      EscapesShorter(s, i + 1);
    }
  }

  /** The characters whose escape is one letter. */
  predicate ShortEscape(c: Char) {
    c == 34 || c == 92 || c == 8 || c == 12 || c == 10 || c == 13 || c == 9
  }

  /** The size pass of print_string_ptr. */
  method StringSize(s: Text) returns (len: nat)
    ensures len == |Escapes(s)|
  {
    len := 0;
    for i := 0 to |s|
      invariant len == |Escapes(s[..i])|
    {
      EscapesStep(s, i);
      len := len + 1;
      if ShortEscape(s[i]) {
        len := len + 1;
      } else if s[i] < 32 {
        len := len + 5;
      }
    }
    assert s[..|s|] == s;
  }

  /** The escape of one character, after its backslash was written. */
  method PutEscape(out: array<Octet>, at: nat, c: Char, ghost before: Text)
    requires Begins(out, before) && |before| == at && (ShortEscape(c) || c < 32)
    requires at + |Escaped(c)| < out.Length
    modifies out
    ensures Begins(out, before + Escaped(c))
  {
    Put(out, at, BACKSLASH, before);
    ghost var slashed := before + [BACKSLASH];
    if c == BACKSLASH || c == QUOTE {
      Put(out, at + 1, c, slashed);
    } else if c == 8 {
      Put(out, at + 1, 98, slashed);
    } else if c == 12 {
      Put(out, at + 1, 102, slashed);
    } else if c == 10 {
      Put(out, at + 1, 110, slashed);
    } else if c == 13 {
      Put(out, at + 1, 114, slashed);
    } else if c == 9 {
      Put(out, at + 1, 116, slashed);
    } else {
      Sprintf(out, at + 1, [LETTER_U, ZERO, ZERO, HexDigit(c / 16), HexDigit(c % 16)], slashed);
    }
    assert slashed + Escaped(c)[1..] == before + Escaped(c);
  }

  /** One round of the filling loop: src/cJSON.c:217-231. */
  method PutChar(out: array<Octet>, at: nat, c: Char, ghost before: Text) returns (p: nat)
    requires Begins(out, before) && |before| == at && at + |Escaped(c)| < out.Length
    modifies out
    ensures Begins(out, before + Escaped(c)) && p == at + |Escaped(c)|
  {
    if c > 31 && c != QUOTE && c != BACKSLASH {
      Put(out, at, c, before);
      p := at + 1;
    } else {
      PutEscape(out, at, c, before);
      p := at + if ShortEscape(c) then 2 else 6;
    }
  }

  /** The filling loop of print_string_ptr. */
  method PutEscapes(out: array<Octet>, at: nat, s: Text, ghost before: Text) returns (p: nat)
    requires Begins(out, before) && |before| == at && at + |Escapes(s)| < out.Length
    modifies out
    ensures Begins(out, before + Escapes(s)) && p == at + |Escapes(s)|
  {
    p := at;
    assert before + Escapes(s[..0]) == before;
    hide *;
    for i := 0 to |s|
      invariant Begins(out, before + Escapes(s[..i])) && p == |before + Escapes(s[..i])|
    {
      EscapesAfter(before, s, i);
      p := PutChar(out, p, s[i], before + Escapes(s[..i]));
    }
    assert s[..|s|] == s;
  }

  lemma EscapesAfter(before: Text, s: Text, i: nat)
    requires i < |s|
    ensures before + Escapes(s[..i]) + Escaped(s[i]) == before + Escapes(s[..i + 1])
    ensures |Escapes(s[..i])| + |Escaped(s[i])| <= |Escapes(s)|
  {
    EscapesStep(s, i);
    hide *;
  }

  /** print_string_ptr: the buffer is exactly as long as what is written, NUL included. */
  method PrintStringPtr(str: CStr) returns (out: array<Octet>)
    ensures fresh(out)
    ensures str.NoString? ==> Holds(out, []) && out.Length == 1
    ensures str.Str? ==> Holds(out, PrintString(str.s)) && out.Length == |PrintString(str.s)| + 1
  {
    hide Escapes;
    if str.NoString? {
      out := new Octet[1](_ => 0);
      return;
    }
    var len := StringSize(str.s);
    out := new Octet[len + 3](_ => 0);
    Put(out, 0, QUOTE, []);
    hide Begins;
    var p := PutEscapes(out, 1, str.s, [QUOTE]);
    Close(out, p, QUOTE, [QUOTE] + Escapes(str.s));
  }

  // ----- numbers -----

  /** print_number */
  method PrintNumber(mant: int, exp: int) returns (out: array<Octet>)
    requires InBuffer(mant, exp)
    ensures fresh(out) && Holds(out, NumberText(mant, exp))
  {
    hide Holds, LikeInt, Near, FarOut, Numer, Denom, Truncated, Nearest, PrintInt, PrintScience, PrintFixed;
    var n, d := Numer(mant, exp), Denom(exp);
    if LikeInt(n, d) {
      IntFits(n, d);
      out := NewText(21, PrintInt(Truncated(n, d)));
    } else if Near(n / d, n, d) {
      out := NewText(NUMBER_SIZE, PrintInt(Signed(n < 0, Nearest(Abs(n), d))));
    } else if FarOut(n, d) {
      out := NewText(NUMBER_SIZE, PrintScience(mant, exp));
    } else {
      out := NewText(NUMBER_SIZE, PrintFixed(n, d));
    }
  }

  /** A new buffer of the given size and a print into it. */
  method NewText(size: nat, t: Text) returns (out: array<Octet>)
    requires |t| < size
    ensures fresh(out) && Holds(out, t)
  {
    out := new Octet[size](_ => 0);
    Sprintf(out, 0, t, []);
    assert [] + t == t;
  }

  // ----- arrays -----

  function Separator(fmt: bool): Text { [COMMA] + If(fmt, [SPACE]) }

  /** The first `k` items with what the composing loop puts after each. */
  function Composed(items: seq<Json>, k: nat, depth: nat, fmt: bool): Text
    requires k <= |items|
  {
    if k == 0 then []
    else Composed(items, k - 1, depth, fmt) + Print(items[k - 1], depth, fmt) + If(k < |items|, Separator(fmt))
  }

  lemma {:induction false} ComposedRest(items: seq<Json>, k: nat, depth: nat, fmt: bool)
    requires k < |items|
    ensures Composed(items, k, depth, fmt) + PrintItems(items[k..], depth, fmt) == Composed(items, |items|, depth, fmt)
    decreases |items| - k
  {
    hide Print;
    var rest := items[k..];
    assert rest[1..] == items[k + 1..] && rest[0] == items[k];
    if k + 1 < |items| {
      ComposedRest(items, k + 1, depth, fmt);
      var a, b, c, d := Composed(items, k, depth, fmt), Print(items[k], depth, fmt), Separator(fmt),
              PrintItems(items[k + 1..], depth, fmt);
      assert a + b + c + d == a + (b + c + d);
    }
  }

  /** The composing loop writes what PrintItems says. */
  lemma ComposedAll(items: seq<Json>, depth: nat, fmt: bool)
    ensures Composed(items, |items|, depth, fmt) == PrintItems(items, depth, fmt)
  {
    hide Print;
    if items != [] {
      ComposedRest(items, 0, depth, fmt);
      assert items[0..] == items;
    }
  }

  /** What the size loop has added after `k` items. */
  function ItemsSize(items: seq<Json>, k: nat, depth: nat, fmt: bool): nat
    requires k <= |items|
  {
    if k == 0 then 0
    else ItemsSize(items, k - 1, depth, fmt) + |Print(items[k - 1], depth, fmt)| + 2 + if fmt then 1 else 0
  }

  /** The size pass bounds the write pass at every item. */
  lemma {:induction false} ItemsFit(items: seq<Json>, k: nat, m: nat, depth: nat, fmt: bool)
    requires k <= m <= |items|
    ensures |Composed(items, k, depth, fmt)| <= ItemsSize(items, k, depth, fmt) <= ItemsSize(items, m, depth, fmt)
    ensures k < m ==> ItemsSize(items, k, depth, fmt) + |Print(items[k], depth, fmt)| + 2 <= ItemsSize(items, m,
            depth, fmt)
    decreases m
  {
    hide Print;
    if k < m {
      ItemsFit(items, k, m - 1, depth, fmt);
    } else if k > 0 {
      ItemsFit(items, k - 1, k - 1, depth, fmt);
    }
  }

  /** The size of an array's buffer is enough for its text and a NUL. */
  lemma ArrayFits(items: seq<Json>, depth: nat, fmt: bool)
    ensures |Print(Array(items), depth, fmt)| + 1 <= 5 + ItemsSize(items, |items|, depth + 1, fmt)
  {
    ComposedAll(items, depth + 1, fmt);
    ItemsFit(items, |items|, |items|, depth + 1, fmt);
    hide PrintItems;
  }

  /** The first items printed, each in its own buffer. */
  ghost predicate Printed(entries: seq<array<Octet>>, items: seq<Json>, depth: nat, fmt: bool)
    reads entries
  {
    |entries| <= |items| && forall i :: 0 <= i < |entries| ==> Holds(entries[i], Print(items[i], depth, fmt))
  }

  /** The composing loop of print_array: src/cJSON.c:364-372. */
  method ComposeItems(out: array<Octet>, entries: seq<array<Octet>>, ghost items: seq<Json>, depth: nat, fmt: bool)
    requires Printed(entries, items, depth, fmt) && |entries| == |items| && out !in entries
    requires out.Length == 5 + ItemsSize(items, |items|, depth, fmt)
    modifies out
    ensures Holds(out, [LBRACKET] + PrintItems(items, depth, fmt) + [RBRACKET])
  {
    Put(out, 0, LBRACKET, []);
    var p := 1;
    Finish(out, p, [LBRACKET]);
    assert [LBRACKET] + Composed(items, 0, depth, fmt) == [LBRACKET];
    hide *;
    for i := 0 to |entries|
      invariant Begins(out, [LBRACKET] + Composed(items, i, depth, fmt)) && p == 1 + |Composed(items, i, depth, fmt)|
      invariant Printed(entries, items, depth, fmt)
    {
      p := NextEntry(out, p, entries, i, items, depth, fmt);
    }
    ItemsFit(items, |items|, |items|, depth, fmt);
    ComposedAll(items, depth, fmt);
    Close(out, p, RBRACKET, [LBRACKET] + PrintItems(items, depth, fmt));
  }

  /** One round of the composing loop; the buffers it copies from stay as they are. */
  method NextEntry(out: array<Octet>, at: nat, entries: seq<array<Octet>>, i: nat, ghost items: seq<Json>,
                   depth: nat, fmt: bool)
    returns (p: nat)
    requires Printed(entries, items, depth, fmt) && i < |entries| == |items| && out !in entries
    requires out.Length == 5 + ItemsSize(items, |items|, depth, fmt)
    requires Begins(out, [LBRACKET] + Composed(items, i, depth, fmt)) && at == 1 + |Composed(items, i, depth, fmt)|
    modifies out
    ensures Begins(out, [LBRACKET] + Composed(items, i + 1, depth, fmt))
    ensures p == 1 + |Composed(items, i + 1, depth, fmt)|
    ensures Printed(entries, items, depth, fmt)
  {
    ComposedFits(items, i, depth, fmt);
    hide Holds, Begins, Print, Composed, ItemsSize, Separator, If;
    ghost var text := [LBRACKET] + Composed(items, i, depth, fmt);
    ghost var entry := Print(items[i], depth, fmt);
    p := PutEntry(out, at, entries[i], entry, text);
    p := PutSeparator(out, p, i != |entries| - 1, fmt, text + entry);
    forall j | 0 <= j < |entries| ensures Holds(entries[j], Print(items[j], depth, fmt)) {
      assert entries[j] in entries;
      assert old(Holds(entries[j], Print(items[j], depth, fmt)));
    }
  }

  /** One more entry and its separator fit, and are what comes next. */
  lemma ComposedFits(items: seq<Json>, i: nat, depth: nat, fmt: bool)
    requires i < |items|
    ensures var text, entry, gap := [LBRACKET] + Composed(items, i, depth, fmt), Print(items[i], depth, fmt),
            If(i + 1 < |items|, Separator(fmt));
            && [LBRACKET] + Composed(items, i + 1, depth, fmt) == text + entry + gap
            && |text| + |entry| + 4 <= 5 + ItemsSize(items, |items|, depth, fmt)
  {
    hide Print;
    ItemsFit(items, i, |items|, depth, fmt);
  }

  method PutEntry(out: array<Octet>, at: nat, a: array<Octet>, ghost s: Text, ghost before: Text) returns (p: nat)
    requires out != a && Holds(a, s) && Begins(out, before) && |before| == at && at + |s| < out.Length
    modifies out
    ensures Begins(out, before + s) && p == at + |s|
  {
    Strcpy(out, at, a, s, before);
    var len := Strlen(a, s);
    p := at + len;
  }

  /** What stands between two entries; nothing after the last. */
  method PutSeparator(out: array<Octet>, at: nat, more: bool, fmt: bool, ghost before: Text) returns (p: nat)
    requires Begins(out, before) && |before| == at && (more ==> at + 2 < out.Length)
    modifies out
    ensures Begins(out, before + If(more, Separator(fmt))) && p == at + |If(more, Separator(fmt))|
  {
    p := at;
    if more {
      Put(out, p, COMMA, before);
      p := p + 1;
      if fmt {
        Put(out, p, SPACE, before + [COMMA]);
        p := p + 1;
      }
      out[p] := 0;
    }
  }

  // ----- objects -----

  /** What the composing loop writes for member `i`. */
  function Line(members: seq<Member>, i: nat, depth: nat, fmt: bool): Text
    requires i < |members|
  {
    PrintMember(members[i], depth, fmt) + If(i + 1 < |members|, [COMMA]) + If(fmt, [NEWLINE])
  }

  function Lines(members: seq<Member>, k: nat, depth: nat, fmt: bool): Text
    requires k <= |members|
  {
    if k == 0 then [] else Lines(members, k - 1, depth, fmt) + Line(members, k - 1, depth, fmt)
  }

  lemma {:induction false} LinesRest(members: seq<Member>, k: nat, depth: nat, fmt: bool)
    requires k <= |members|
    ensures Lines(members, k, depth, fmt) + PrintMembers(members[k..], depth, fmt) == Lines(members, |members|, depth,
            fmt)
    decreases |members| - k
  {
    hide PrintMember;
    if k < |members| {
      var rest := members[k..];
      assert rest[1..] == members[k + 1..] && rest[0] == members[k];
      LinesRest(members, k + 1, depth, fmt);
      var a, b, d := Lines(members, k, depth, fmt), Line(members, k, depth, fmt), PrintMembers(members[k + 1..],
              depth, fmt);
      assert a + b + d == a + (b + d);
    }
  }

  /** The composing loop writes what PrintMembers says. */
  lemma LinesAll(members: seq<Member>, depth: nat, fmt: bool)
    ensures Lines(members, |members|, depth, fmt) == PrintMembers(members, depth, fmt)
  {
    hide PrintMember;
    LinesRest(members, 0, depth, fmt);
    assert members[0..] == members;
  }

  /** What the collecting loop has added after `k` members. */
  function MembersSize(members: seq<Member>, k: nat, depth: nat, fmt: bool): nat
    requires k <= |members|
  {
    if k == 0 then 0
    else
      var m := members[k - 1];
      MembersSize(members, k - 1, depth, fmt) + |Print(m.value, depth,
              fmt)| + |PrintString(m.name)| + 2 + if fmt then 2 + depth else 0
  }

  lemma LineLength(members: seq<Member>, i: nat, depth: nat, fmt: bool)
    requires i < |members|
    ensures |Line(members, i, depth, fmt)| + (if i + 1 < |members| then 0 else 1)
            == |Print(members[i].value, depth, fmt)| + |PrintString(members[i].name)| + 2 + if fmt then 2 + depth else 0
  {
    hide Print, PrintString;
  }

  /** The size pass bounds the write pass at every member. */
  lemma {:induction false} MembersFit(members: seq<Member>, k: nat, m: nat, depth: nat, fmt: bool)
    requires k <= m <= |members|
    ensures |Lines(members, k, depth, fmt)| <= MembersSize(members, k, depth, fmt) <= MembersSize(members, m, depth,
            fmt)
    ensures k < m ==> |Lines(members, k, depth, fmt)| + |Line(members, k, depth, fmt)| <= MembersSize(members, m,
            depth, fmt)
    decreases m
  {
    hide Print, PrintString, Line;
    if k < m {
      MembersFit(members, k, m - 1, depth, fmt);
      LineLength(members, k, depth, fmt);
    } else if k > 0 {
      MembersFit(members, k - 1, k - 1, depth, fmt);
      LineLength(members, k - 1, depth, fmt);
    }
  }

  /** The size of an object's buffer is enough for its text and a NUL. */
  lemma ObjectFits(members: seq<Member>, depth: nat, fmt: bool)
    ensures |Print(Object(members), depth, fmt)| + 1
            <= 7 + (if fmt then depth + 1 else 0) + MembersSize(members, |members|, depth + 1, fmt)
  {
    LinesAll(members, depth + 1, fmt);
    MembersFit(members, |members|, |members|, depth + 1, fmt);
    hide PrintMembers, MembersSize, Lines;
  }

  /** The first members' names and values printed, each in its own buffer. */
  ghost predicate PrintedMembers(names: seq<array<Octet>>, entries: seq<array<Octet>>, members: seq<Member>,
          depth: nat, fmt: bool)
    reads names, entries
  {
    && |names| == |entries| <= |members|
    && forall i :: 0 <= i < |names| ==>
         Holds(names[i], PrintString(members[i].name)) && Holds(entries[i], Print(members[i].value, depth, fmt))
  }

  /** The indentation, one tab for each level. */
  method PutTabs(out: array<Octet>, at: nat, depth: nat, ghost before: Text) returns (p: nat)
    requires Begins(out, before) && |before| == at && at + depth <= out.Length
    modifies out
    ensures Begins(out, before + Tabs(depth)) && p == at + depth
  {
    p := at;
    for j := 0 to depth
      invariant p == at + j && Begins(out, before + Tabs(j))
    {
      Put(out, p, TAB, before + Tabs(j));
      assert Tabs(j + 1) == Tabs(j) + [TAB];
      assert before + Tabs(j) + [TAB] == before + Tabs(j + 1);
      p := p + 1;
    }
  }

  /** One round of the composing loop of print_object: src/cJSON.c:454-462. */
  method PutLine(out: array<Octet>, at: nat, name: array<Octet>, entry: array<Octet>, more: bool, depth: nat, fmt: bool,
                 ghost m: Member, ghost before: Text)
    returns (p: nat)
    requires out != name && out != entry && Holds(name, PrintString(m.name)) && Holds(entry, Print(m.value, depth, fmt))
    requires Begins(out, before) && |before| == at
    requires at + |PrintMember(m, depth, fmt)| + 2 < out.Length
    modifies out
    ensures var line := PrintMember(m, depth, fmt) + If(more, [COMMA]) + If(fmt, [NEWLINE]);
            Begins(out, before + line) && p == at + |line|
  {
    hide *;
    ghost var text := before;
    MemberText(before, m, more, depth, fmt);
    p := at;
    if fmt {
      p := PutTabs(out, p, depth, text);
      text := text + Tabs(depth);
    }
    p := PutEntry(out, p, name, PrintString(m.name), text);
    text := text + PrintString(m.name);
    Put(out, p, COLON, text);
    p := p + 1;
    text := text + [COLON];
    if fmt {
      Put(out, p, TAB, text);
      p := p + 1;
      text := text + [TAB];
    }
    p := PutEntry(out, p, entry, Print(m.value, depth, fmt), text);
    text := text + Print(m.value, depth, fmt);
    if more {
      Put(out, p, COMMA, text);
      p := p + 1;
      text := text + [COMMA];
    }
    if fmt {
      Put(out, p, NEWLINE, text);
      p := p + 1;
      text := text + [NEWLINE];
    }
    Finish(out, p, text);
  }

  /** The pieces of a line, in the order in which they are written. */
  lemma MemberText(before: Text, m: Member, more: bool, depth: nat, fmt: bool)
    ensures var line, name, value := PrintMember(m, depth, fmt) + If(more, [COMMA]) + If(fmt, [NEWLINE]),
              PrintString(m.name), Print(m.value, depth, fmt);
            && |PrintMember(m, depth, fmt)| == |name| + 1 + |value| + (if fmt then depth + 1 else 0)
            && (fmt && more ==>
                  before + Tabs(depth) + name + [COLON] + [TAB] + value + [COMMA] + [NEWLINE] == before + line)
            && (fmt && !more ==> before + Tabs(depth) + name + [COLON] + [TAB] + value + [NEWLINE] == before + line)
            && (!fmt && more ==> before + name + [COLON] + value + [COMMA] == before + line)
            && (!fmt && !more ==> before + name + [COLON] + value == before + line)
  {
    hide Print, PrintString;
  }

  /** { and the line end after it */
  method OpenBrace(out: array<Octet>, fmt: bool) returns (p: nat)
    requires out.Length >= 7
    modifies out
    ensures Begins(out, [LBRACE] + If(fmt, [NEWLINE])) && p == |[LBRACE] + If(fmt, [NEWLINE])|
  {
    Put(out, 0, LBRACE, []);
    p := 1;
    if fmt {
      Put(out, 1, NEWLINE, [LBRACE]);
      p := 2;
    }
    out[p] := 0;
  }

  /** The composing loop of print_object: src/cJSON.c:455-464. */
  method ComposeLines(out: array<Octet>, at: nat, names: seq<array<Octet>>, entries: seq<array<Octet>>,
                      ghost members: seq<Member>, depth: nat, fmt: bool, ghost head: Text)
    returns (p: nat)
    requires PrintedMembers(names, entries, members, depth, fmt) && |entries| == |members| && out !in entries
            && out !in names
    requires Begins(out, head) && |head| == at
    requires at + MembersSize(members, |members|, depth, fmt) + 2 < out.Length
    modifies out
    ensures Begins(out, head + Lines(members, |members|, depth, fmt))
            && p == at + |Lines(members, |members|, depth, fmt)|
  {
    hide *;
    p := at;
    ghost var text := head;
    NoLines(members, depth, fmt, head);
    for i := 0 to |entries|
      invariant text == head + Lines(members, i, depth, fmt) && p == |text|
      invariant Begins(out, text) && PrintedMembers(names, entries, members, depth, fmt)
    {
      LinesFit(members, i, depth, fmt, head);
      p := NextLine(out, p, names, entries, i, depth, fmt, members, text);
      text := text + Line(members, i, depth, fmt);
    }
  }

  lemma NoLines(members: seq<Member>, depth: nat, fmt: bool, head: Text)
    ensures head + Lines(members, 0, depth, fmt) == head
  {
  }

  /** PutLine leaves the buffers it copies from as they are. */
  method NextLine(out: array<Octet>, at: nat, names: seq<array<Octet>>, entries: seq<array<Octet>>, i: nat,
                  depth: nat, fmt: bool, ghost members: seq<Member>, ghost before: Text)
    returns (p: nat)
    requires PrintedMembers(names, entries, members, depth, fmt) && i < |entries| == |members|
    requires out !in entries && out !in names && Begins(out, before) && |before| == at
    requires at + |PrintMember(members[i], depth, fmt)| + 2 < out.Length
    modifies out
    ensures PrintedMembers(names, entries, members, depth, fmt)
    ensures Begins(out, before + Line(members, i, depth, fmt)) && p == at + |Line(members, i, depth, fmt)|
  {
    hide Holds, Begins, Print, PrintString, PrintMember;
    p := PutLine(out, at, names[i], entries[i], i != |entries| - 1, depth, fmt, members[i], before);
    forall j | 0 <= j < |names|
      ensures Holds(names[j], PrintString(members[j].name)) && Holds(entries[j], Print(members[j].value, depth, fmt))
    {
      assert names[j] in names && entries[j] in entries;
      assert old(Holds(names[j], PrintString(members[j].name)));
      assert old(Holds(entries[j], Print(members[j].value, depth, fmt)));
    }
  }

  /** The composing part of print_object: src/cJSON.c:453-468. */
  method ComposeMembers(out: array<Octet>, names: seq<array<Octet>>, entries: seq<array<Octet>>,
          ghost members: seq<Member>, depth: nat, fmt: bool)
    requires PrintedMembers(names, entries, members, depth + 1, fmt) && |entries| == |members| && out !in entries
            && out !in names
    requires out.Length == 7 + (if fmt then depth + 1 else 0) + MembersSize(members, |members|, depth + 1, fmt)
    modifies out
    ensures Holds(out, Print(Object(members), depth, fmt))
  {
    var p := OpenBrace(out, fmt);
    ghost var head: Text := [LBRACE] + If(fmt, [NEWLINE]);
    assert |head| <= 2 && (fmt ==> |If(fmt, Tabs(depth))| == depth) && (!fmt ==> |If(fmt, Tabs(depth))| == 0);
    hide *;
    p := ComposeLines(out, p, names, entries, members, depth + 1, fmt, head);
    MembersFit(members, |members|, |members|, depth + 1, fmt);
    LinesAll(members, depth + 1, fmt);
    ghost var text := head + PrintMembers(members, depth + 1, fmt);
    if fmt {
      p := PutTabs(out, p, depth, text);
    }
    text := text + If(fmt, Tabs(depth));
    assert Begins(out, text) && p == |text|;
    Close(out, p, RBRACE, text);
    ObjectText(members, depth, fmt);
  }

  lemma LinesFit(members: seq<Member>, i: nat, depth: nat, fmt: bool, head: Text)
    requires i < |members|
    ensures var lines, line := Lines(members, i, depth, fmt), Line(members, i, depth, fmt);
            && head + Lines(members, i + 1, depth, fmt) == head + lines + line
            && line == PrintMember(members[i], depth, fmt) + If(i != |members| - 1, [COMMA]) + If(fmt, [NEWLINE])
            && |lines| + |PrintMember(members[i], depth, fmt)| <= MembersSize(members, |members|, depth, fmt)
  {
    hide PrintMember;
    MembersFit(members, i, |members|, depth, fmt);
  }

  lemma ObjectText(members: seq<Member>, depth: nat, fmt: bool)
    ensures Print(Object(members), depth, fmt)
            == [LBRACE] + If(fmt, [NEWLINE]) + PrintMembers(members, depth + 1, fmt) + If(fmt, Tabs(depth)) + [RBRACE]
  {
  }

  // ----- values -----

  /** print_value: a fresh buffer that holds the text of the tree below the item. */
  method PrintValue(item: Item, ghost n: Nodes, ghost v: Json, depth: nat, fmt: bool) returns (out: array<Octet>)
    requires n.item == item && Carries(n, v) && Printable(v)
    ensures fresh(out) && Holds(out, Print(v, depth, fmt))
    decreases v, 1
  {
    hide PrintString, NumberText, Printed, PrintItems, PrintMembers, Linked, CarryAll, CarryMembers, Inner, Holds;
    if item.kind == KIND_NULL {
      out := Strdup(NULL_TEXT);
    } else if item.kind == KIND_FALSE {
      out := Strdup(FALSE_TEXT);
    } else if item.kind == KIND_TRUE {
      out := Strdup(TRUE_TEXT);
    } else if item.kind == KIND_NUMBER {
      out := PrintNumber(item.mant, item.exp);
    } else if item.kind == KIND_STRING {
      out := PrintStringPtr(item.valuestring);
    } else if item.kind == KIND_ARRAY {
      out := PrintArray(item, n, v, depth, fmt);
    } else {
      out := PrintObject(item, n, v, depth, fmt);
    }
  }

  /** print_array */
  method PrintArray(item: Item, ghost n: Nodes, ghost v: Json, depth: nat, fmt: bool) returns (out: array<Octet>)
    requires n.item == item && v.Array? && Carries(n, v) && Printable(v)
    ensures fresh(out) && Holds(out, Print(v, depth, fmt))
    decreases v, 0
  {
    hide Print, Holds, Printed, ItemsSize, CarryAll;
    ListAllocated(n.kids);
    var numentries := ArraySize(item, Items(n.kids));
    assert CarryAll(n.kids, v.items) == old(CarryAll(n.kids, v.items));
    assert ItemsBelow(item, n.kids, v.items);
    var entries, len := CollectItems(item, n.kids, v.items, depth + 1, fmt);
    assert |entries| == numentries;
    ItemsFit(v.items, 0, |v.items|, depth + 1, fmt);
    out := new Octet[len](_ => 0);
    ComposeItems(out, entries, v.items, depth + 1, fmt);
    ArrayText(v, depth, fmt);
  }

  lemma ArrayText(v: Json, depth: nat, fmt: bool)
    requires v.Array?
    ensures Print(v, depth, fmt) == [LBRACKET] + PrintItems(v.items, depth + 1, fmt) + [RBRACKET]
  {
  }

  /** The collecting loop of print_array: src/cJSON.c:342-349. */
  method CollectItems(list: Item, ghost kids: seq<Nodes>, ghost items: seq<Json>, depth: nat, fmt: bool)
    returns (entries: seq<array<Octet>>, len: nat)
    requires ItemsBelow(list, kids, items)
    ensures |entries| == |items| && Printed(entries, items, depth, fmt)
    ensures len == 5 + ItemsSize(items, |items|, depth, fmt)
    decreases items
  {
    hide *;
    entries, len := [], 5;
    var child := list.child;
    ListAllocated(kids);
    FirstItem(list, kids, items, depth, fmt);
    while child != null
      invariant |entries| <= |kids| && child == ChildAt(kids, |entries|)
      invariant len == 5 + ItemsSize(items, |entries|, depth, fmt)
      invariant Printed(entries, items, depth, fmt)
      decreases |kids| - |entries|
    {
      ghost var i := |entries|;
      ChildIs(kids, i);
      assert ItemsBelow(list, kids, items) == old(ItemsBelow(list, kids, items));
      var ret, size := NextItem(list, child, entries, kids, items, depth, fmt);
      entries := entries + [ret];
      len := len + size + 2 + if fmt then 1 else 0;
      child := child.next;
    }
    ChildIs(kids, |entries|);
  }

  lemma FirstItem(list: Item, kids: seq<Nodes>, items: seq<Json>, depth: nat, fmt: bool)
    requires ItemsBelow(list, kids, items)
    ensures list.child == ChildAt(kids, 0)
    ensures Printed([], items, depth, fmt) && ItemsSize(items, 0, depth, fmt) == 0
  {
  }

  /** print_value of the next child, and strlen of what it returned. */
  method NextItem(ghost list: Item, child: Item, ghost entries: seq<array<Octet>>, ghost kids: seq<Nodes>,
          ghost items: seq<Json>,
                  depth: nat, fmt: bool)
    returns (ret: array<Octet>, size: nat)
    requires ItemsBelow(list, kids, items)
    requires |entries| < |kids| && child == kids[|entries|].item && Printed(entries, items, depth, fmt)
    ensures fresh(ret) && Printed(entries + [ret], items, depth, fmt) && child.next == ChildAt(kids, |entries| + 1)
    ensures ItemsSize(items, |entries| + 1, depth, fmt)
            == ItemsSize(items, |entries|, depth, fmt) + size + 2 + if fmt then 1 else 0
    decreases items, 0
  {
    hide Print, Holds, Carries, Inner, Linked;
    ghost var i := |entries|;
    NextChild(kids, list.child, i);
    ret := PrintValue(child, kids[i], items[i], depth, fmt);
    size := Strlen(ret, Print(items[i], depth, fmt));
    forall j | 0 <= j <= i ensures Holds((entries + [ret])[j], Print(items[j], depth, fmt)) {
      if j < i {
        assert old(Holds(entries[j], Print(items[j], depth, fmt)));
      }
    }
  }

  /** The item of the `i`th child, NULL after the last. */
  ghost function ChildAt(kids: seq<Nodes>, i: nat): Item? { if i < |kids| then kids[i].item else null }

  lemma ChildIs(kids: seq<Nodes>, i: nat)
    ensures if i < |kids| then ChildAt(kids, i) == kids[i].item else ChildAt(kids, i) == null
  {
  }

  lemma NextChild(kids: seq<Nodes>, head: Item?, i: nat)
    requires Linked(Items(kids), head) && i < |kids|
    ensures kids[i].item.next == ChildAt(kids, i + 1)
  {
    assert Items(kids)[i].next == Next(Items(kids), i);
  }

  /** print_object */
  method PrintObject(item: Item, ghost n: Nodes, ghost v: Json, depth: nat, fmt: bool) returns (out: array<Octet>)
    requires n.item == item && v.Object? && Carries(n, v) && Printable(v)
    ensures fresh(out) && Holds(out, Print(v, depth, fmt))
    decreases v, 0
  {
    hide Print, Holds, PrintedMembers, MembersSize, CarryMembers;
    ListAllocated(n.kids);
    var numentries := ArraySize(item, Items(n.kids));
    assert CarryMembers(n.kids, v.members) == old(CarryMembers(n.kids, v.members));
    assert MembersBelow(item, n.kids, v.members);
    var names, entries, len := CollectMembers(item, n.kids, v.members, depth + 1, fmt);
    assert |entries| == numentries;
    out := new Octet[len](_ => 0);
    ComposeMembers(out, names, entries, v.members, depth, fmt);
  }

  /** The collecting loop of print_object: src/cJSON.c:432-439. */
  method CollectMembers(list: Item, ghost kids: seq<Nodes>, ghost members: seq<Member>, depth: nat, fmt: bool)
    returns (names: seq<array<Octet>>, entries: seq<array<Octet>>, len: nat)
    requires MembersBelow(list, kids, members)
    ensures |names| == |entries| == |members| && PrintedMembers(names, entries, members, depth, fmt)
    ensures len == 7 + (if fmt then depth else 0) + MembersSize(members, |members|, depth, fmt)
    decreases members
  {
    hide *;
    names, entries, len := [], [], 7 + if fmt then depth else 0;
    var child := list.child;
    ListAllocated(kids);
    FirstMember(list, kids, members, depth, fmt);
    while child != null
      invariant |names| == |entries| <= |kids| && child == ChildAt(kids, |entries|)
      invariant len == 7 + (if fmt then depth else 0) + MembersSize(members, |entries|, depth, fmt)
      invariant PrintedMembers(names, entries, members, depth, fmt)
      decreases |kids| - |entries|
    {
      ghost var i := |entries|;
      ChildIs(kids, i);
      assert MembersBelow(list, kids, members) == old(MembersBelow(list, kids, members));
      var str, ret, size := NextMember(list, child, names, entries, kids, members, depth, fmt);
      names, entries := names + [str], entries + [ret];
      len := len + size + 2 + if fmt then 2 + depth else 0;
      child := child.next;
    }
    ChildIs(kids, |entries|);
  }

  /** The children's list of an array, as the collecting loop walks it. */
  ghost predicate ItemsBelow(list: Item, kids: seq<Nodes>, items: seq<Json>): (r: bool)
    reads list`child, Inner(kids)
    ensures r ==> |kids| == |items|
  {
    && Linked(Items(kids), list.child) && CarryAll(kids, items)
    && forall i :: 0 <= i < |items| ==> Printable(items[i])
  }

  /** The children's list of an object, as the collecting loop walks it. */
  ghost predicate MembersBelow(list: Item, kids: seq<Nodes>, members: seq<Member>): (r: bool)
    reads list`child, Inner(kids)
    ensures r ==> |kids| == |members|
  {
    && Linked(Items(kids), list.child) && CarryMembers(kids, members)
    && forall i :: 0 <= i < |members| ==> Printable(members[i].value)
  }

  lemma FirstMember(list: Item, kids: seq<Nodes>, members: seq<Member>, depth: nat, fmt: bool)
    requires MembersBelow(list, kids, members)
    ensures list.child == ChildAt(kids, 0)
    ensures PrintedMembers([], [], members, depth, fmt) && MembersSize(members, 0, depth, fmt) == 0
  {
  }

  /** print_string_ptr of the next child's name, print_value of its value, and their two lengths. */
  method NextMember(ghost list: Item, child: Item, ghost names: seq<array<Octet>>, ghost entries: seq<array<Octet>>,
                    ghost kids: seq<Nodes>, ghost members: seq<Member>, depth: nat, fmt: bool)
    returns (str: array<Octet>, ret: array<Octet>, size: nat)
    requires MembersBelow(list, kids, members)
    requires |names| == |entries| < |kids| && child == kids[|entries|].item
    requires PrintedMembers(names, entries, members, depth, fmt)
    ensures fresh(str) && fresh(ret) && child.next == ChildAt(kids, |entries| + 1)
    ensures PrintedMembers(names + [str], entries + [ret], members, depth, fmt)
    ensures MembersSize(members, |entries| + 1, depth, fmt)
            == MembersSize(members, |entries|, depth, fmt) + size + 2 + if fmt then 2 + depth else 0
    decreases members, 0
  {
    hide Print, PrintString, Holds, Carries, Inner, Linked;
    ghost var i := |entries|;
    NextChild(kids, list.child, i);
    ListAllocated(kids);
    assert All(kids[i]) <= Inner(kids);
    assert old(Carries(kids[i], members[i].value));
    str := PrintStringPtr(child.name);
    assert Carries(kids[i], members[i].value) == old(Carries(kids[i], members[i].value));
    ret := PrintValue(child, kids[i], members[i].value, depth, fmt);
    var width := Strlen(ret, Print(members[i].value, depth, fmt));
    size := Strlen(str, PrintString(members[i].name));
    size := size + width;
    forall j | 0 <= j <= i
      ensures Holds((names + [str])[j], PrintString(members[j].name))
      ensures Holds((entries + [ret])[j], Print(members[j].value, depth, fmt))
    {
      if j < i {
        assert old(Holds(names[j], PrintString(members[j].name)));
        assert old(Holds(entries[j], Print(members[j].value, depth, fmt)));
      }
    }
  }

  /** cJSON_Print and cJSON_PrintUnformatted: the text parses back to the tree with its numbers as written. */
  method PrintItem(item: Item, fmt: bool, ghost n: Nodes, ghost v: Json) returns (out: array<Octet>)
    requires n.item == item && Carries(n, v) && Printable(v)
    ensures fresh(out) && Holds(out, Print(v, 0, fmt)) && Parse(Print(v, 0, fmt)) == Ok(AsRead(v), [])
  {
    out := PrintValue(item, n, v, 0, fmt);
    ParsePrint(v, fmt);
  }
}
