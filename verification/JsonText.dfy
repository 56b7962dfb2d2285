/** The JSON texts of src/cJSON.c as values: what its printer writes and what its
    parser makes of a text.  A text is a C string without its terminating NUL. */
module JsonText {
  import opened Decimals

  /** A number is mant * 10^exp. */
  datatype Json =
    | Null | False | True
    | Number(mant: int, exp: int)
    | String(s: Text)
    | Array(items: seq<Json>)
    | Object(members: seq<Member>)

  datatype Member = Member(name: Text, value: Json)

  /** A parser's return: a value and the text after it; a failure, with ep set
      to the text from there on; or a text on whose escapes the C code reads past
      the terminator or depends on sscanf finding fewer than four digits. */
  datatype Parsed<T> = Ok(value: T, rest: Text) | Fail(at: Text) | Wild

  const QUOTE: Char := 34
  const BACKSLASH: Char := 92
  const COMMA: Char := 44
  const COLON: Char := 58
  const SPACE: Char := 32
  const TAB: Char := 9
  const NEWLINE: Char := 10
  const LBRACKET: Char := 91
  const RBRACKET: Char := 93
  const LBRACE: Char := 123
  const RBRACE: Char := 125
  const LETTER_U: Char := 117

  const NULL_TEXT: Text := [110, 117, 108, 108]
  const FALSE_TEXT: Text := [102, 97, 108, 115, 101]
  const TRUE_TEXT: Text := [116, 114, 117, 101]

  function Skip(t: Text): (r: Text)
    ensures |r| <= |t|
  {
    if t != [] && t[0] <= SPACE then Skip(t[1..]) else t
  }

  // ----- strings -----

  function HexDigit(d: nat): Char
    requires d < 16
  {
    if d < 10 then 48 + d else 87 + d
  }

  /** The escape of one character, or the character itself. */
  function Escaped(c: Char): Text {
    if c == QUOTE || c == BACKSLASH then [BACKSLASH, c]
    else if c == 8 then [BACKSLASH, 98]
    else if c == 12 then [BACKSLASH, 102]
    else if c == 10 then [BACKSLASH, 110]
    else if c == 13 then [BACKSLASH, 114]
    else if c == 9 then [BACKSLASH, 116]
    else if c < 32 then [BACKSLASH, LETTER_U, ZERO, ZERO, HexDigit(c / 16), HexDigit(c % 16)]
    else [c]
  }

  function Escapes(s: Text): Text {
    if s == [] then [] else Escaped(s[0]) + Escapes(s[1..])
  }

  /** print_string_ptr */
  function PrintString(s: Text): Text {
    [QUOTE] + Escapes(s) + [QUOTE]
  }

  predicate IsHex(c: int) { 48 <= c <= 57 || 65 <= c <= 70 || 97 <= c <= 102 }

  function HexValue(c: int): (v: nat)
    requires IsHex(c)
    ensures v < 16
  {
    if c <= 57 then c - 48 else if c <= 70 then c - 55 else c - 87
  }

  /** Four hex digits at `i`. */
  predicate FourHex(t: Text, i: nat) {
    IsHex(At(t, i)) && IsHex(At(t, i + 1)) && IsHex(At(t, i + 2)) && IsHex(At(t, i + 3))
  }

  function FourHexValue(t: Text, i: nat): (v: nat)
    requires FourHex(t, i)
    ensures v < 0x10000
  {
    ((HexValue(t[i]) * 16 + HexValue(t[i + 1])) * 16 + HexValue(t[i + 2])) * 16 + HexValue(t[i + 3])
  }

  /** The code unit in one to four bytes. */
  function Utf8(uc: nat): Text
    requires 0 < uc < 0x200000
  {
    if uc < 0x80 then [uc]
    else if uc < 0x800 then [0xC0 + uc / 64, 0x80 + uc % 64]
    else if uc < 0x10000 then [0xE0 + uc / 4096, 0x80 + uc / 64 % 64, 0x80 + uc % 64]
    else [0xF0 + uc / 262144, 0x80 + uc / 4096 % 64, 0x80 + uc / 64 % 64, 0x80 + uc % 64]
  }

  predicate HighSurrogate(uc: nat) { 0xD800 <= uc <= 0xDBFF }

  predicate LowSurrogate(uc: nat) { 0xDC00 <= uc <= 0xDFFF }

  /** The pair's code point as parse_string puts it together: the ten low bits of each half,
      and bit 16 set with an or, so it is lost when the shifted half has it already. */
  function Joined(uc: nat, uc2: nat): (j: nat)
    requires HighSurrogate(uc) && LowSurrogate(uc2)
    ensures 0x10000 <= j < 0x110000
  {
    var high, low := uc % 0x400 * 0x400, uc2 % 0x400;
    (if high / 0x10000 % 2 == 1 then high else 0x10000 + high) + low
  }

  /** The `u` escape at the start of `t`: the characters it stands for and the text after it. */
  function Unicode(t: Text): (r: Parsed<Text>)
    requires At(t, 0) == BACKSLASH && At(t, 1) == LETTER_U
    ensures r.Ok? ==> |r.rest| < |t|
  {
    if !FourHex(t, 2) then Wild
    else
      var uc := FourHexValue(t, 2);
      if LowSurrogate(uc) || uc == 0 then Ok([], t[6..])
      else if !HighSurrogate(uc) then Ok(Utf8(uc), t[6..])
      else if At(t, 6) != BACKSLASH || At(t, 7) != LETTER_U then Ok([], t[6..])
      else if !FourHex(t, 8) then Wild
      else
        var uc2 := FourHexValue(t, 8);
        if LowSurrogate(uc2) then Ok(Utf8(Joined(uc, uc2)), t[12..]) else Ok([], t[12..])
  }

  /** The character of a one-letter escape. */
  function Unescaped(c: Char): Char {
    if c == 98 then 8 else if c == 102 then 12 else if c == 110 then 10 else if c == 114 then 13
    else if c == 116 then 9 else c
  }

  /** The body of a string up to its quote; the end of the text ends it too. */
  function Unescape(t: Text): (r: Parsed<Text>)
    ensures r.Ok? ==> |r.rest| <= |t|
    ensures !r.Fail?
  {
    if t == [] then Ok([], [])
    else if t[0] == QUOTE then Ok([], t[1..])
    else if t[0] != BACKSLASH then Before([t[0]], Unescape(t[1..]))
    else if |t| == 1 then Wild
    else if t[1] != LETTER_U then Before([Unescaped(t[1])], Unescape(t[2..]))
    else
      var u := Unicode(t);
      if u.Ok? then Before(u.value, Unescape(u.rest)) else Wild
  }

  function Before(s: Text, r: Parsed<Text>): Parsed<Text> {
    if r.Ok? then Ok(s + r.value, r.rest) else r
  }

  /** What the size loop of parse_string counts: src/cJSON.c:148. */
  function Counted(t: Text): nat {
    if t == [] || t[0] == QUOTE then 0
    else if t[0] != BACKSLASH then 1 + Counted(t[1..])
    else if |t| == 1 then 1
    else 1 + Counted(t[2..])
  }

  /** The size loop does not step over the end of the text. */
  predicate Walks(t: Text) {
    if t == [] || t[0] == QUOTE then true
    else if t[0] != BACKSLASH then Walks(t[1..])
    else |t| > 1 && Walks(t[2..])
  }

  predicate Plain(t: Text, k: nat) {
    k <= |t| && forall i :: 0 <= i < k ==> t[i] != QUOTE && t[i] != BACKSLASH
  }

  lemma {:induction false} CountedPlain(t: Text, k: nat)
    requires Plain(t, k)
    ensures Counted(t) == k + Counted(t[k..]) && Walks(t) == Walks(t[k..])
    decreases k
  {
    if k > 0 {
      CountedPlain(t[1..], k - 1);
      assert t[1..][k - 1..] == t[k..];
    }
  }

  /** The `u` escape stands for no more characters than are counted for it. */
  lemma UnicodeFits(t: Text)
    requires At(t, 0) == BACKSLASH && At(t, 1) == LETTER_U && Unicode(t).Ok?
    ensures Walks(Unicode(t).rest) ==> Walks(t)
    ensures |Unicode(t).value| + Counted(Unicode(t).rest) <= Counted(t)
  {
    hide FourHexValue, Utf8, Joined, Walks, Counted;
    HexCounted(t);
    UnicodeCases(t);
    if Unicode(t).rest != t[6..] {
      var u := t[6..];
      assert FourHex(u, 2);
      HexCounted(u);
      assert u[6..] == t[12..];
    }
  }

  lemma HexCounted(t: Text)
    requires At(t, 0) == BACKSLASH && At(t, 1) == LETTER_U && FourHex(t, 2)
    ensures Counted(t) == 5 + Counted(t[6..]) && Walks(t) == Walks(t[6..])
  {
    CountedPlain(t[2..], 4);
    assert t[2..][4..] == t[6..];
  }

  lemma UnicodeCases(t: Text)
    requires At(t, 0) == BACKSLASH && At(t, 1) == LETTER_U && Unicode(t).Ok?
    ensures FourHex(t, 2)
    ensures var u := Unicode(t);
            (u.rest == t[6..] && |u.value| <= 3)
            || (At(t, 6) == BACKSLASH && At(t, 7) == LETTER_U && FourHex(t, 8) && u.rest == t[12..] && |u.value| <= 4)
  {
    hide FourHexValue, Joined;
  }

  /** parse_string's buffer is long enough: the decoded string has no more
      characters than the size loop counted, and that loop stays in the text. */
  lemma {:induction false} UnescapeFits(t: Text)
    requires Unescape(t).Ok?
    ensures Walks(t) && |Unescape(t).value| <= Counted(t)
    decreases |t|
  {
    hide Unicode;
    if t == [] || t[0] == QUOTE {
    } else if t[0] != BACKSLASH {
      UnescapeFits(t[1..]);
    } else if t[1] != LETTER_U {
      UnescapeFits(t[2..]);
    } else {
      UnicodeFits(t);
      UnescapeFits(Unicode(t).rest);
    }
  }

  /** Up to the quote that closes the string, or the end of the text, every escape has its
      character and every `u` escape its four hex digits. */
  predicate Sound(t: Text) {
    if t == [] || t[0] == QUOTE then true
    else if t[0] != BACKSLASH then Sound(t[1..])
    else if |t| == 1 then false
    else if t[1] != LETTER_U then Sound(t[2..])
    else FourHex(t, 2) && Sound(t[6..])
  }

  lemma UnicodeSound(t: Text)
    requires At(t, 0) == BACKSLASH && At(t, 1) == LETTER_U
    ensures !Unicode(t).Fail? && (Unicode(t).Wild? ==> !Sound(t))
    ensures Unicode(t).Ok? ==> (Sound(t) <==> Sound(Unicode(t).rest))
  {
    hide FourHexValue, Utf8, Joined;
    if FourHex(t, 2) && At(t, 6) == BACKSLASH && At(t, 7) == LETTER_U {
      var u := t[6..];
      assert FourHex(u, 2) <==> FourHex(t, 8);
      if FourHex(t, 8) { assert u[6..] == t[12..]; }
    }
  }

  /** parse_string leaves what the C code defines exactly on strings whose escapes are not sound. */
  lemma {:induction false} UnescapeWild(t: Text)
    ensures Unescape(t).Wild? <==> !Sound(t)
    decreases |t|
  {
    hide Unicode;
    if t == [] || t[0] == QUOTE || |t| == 1 {
      if t != [] && t[0] != QUOTE && t[0] != BACKSLASH { UnescapeWild(t[1..]); }
    } else if t[0] != BACKSLASH {
      UnescapeWild(t[1..]);
    } else if t[1] != LETTER_U {
      UnescapeWild(t[2..]);
    } else {
      UnicodeSound(t);
      if Unicode(t).Ok? { UnescapeWild(Unicode(t).rest); }
    }
  }

  function ParseString(t: Text): (r: Parsed<Text>)
    ensures r.Ok? ==> |r.rest| < |t|
  {
    if At(t, 0) != QUOTE then Fail(t) else Unescape(t[1..])
  }

  lemma EscapedBack(c: Char, t: Text)
    ensures Unescape(Escaped(c) + t) == Before([c], Unescape(t))
  {
    var e := Escaped(c) + t;
    if c < 32 && c != 8 && c != 9 && c != 10 && c != 12 && c != 13 {
      assert e[..6] == Escaped(c) && e[6..] == t;
      assert FourHexValue(e, 2) == c;
      assert Unicode(e) == Ok([c], t);
    } else {
      assert e[|Escaped(c)|..] == t;
    }
  }

  /** Reading back what was escaped gives the string and leaves the rest of the text. */
  lemma {:induction false} EscapesBack(s: Text, t: Text)
    ensures Unescape(Escapes(s) + [QUOTE] + t) == Ok(s, t)
  {
    hide *;
    EscapesParts(s);
    if s == [] {
      QuoteEnds(t);
      assert Escapes(s) + [QUOTE] + t == [QUOTE] + t;
    } else {
      var rest := Escapes(s[1..]) + [QUOTE] + t;
      EscapesBack(s[1..], t);
      EscapedBack(s[0], rest);
      BeforeOk([s[0]], s[1..], t);
      assert Escapes(s) + [QUOTE] + t == Escaped(s[0]) + rest;
      assert [s[0]] + s[1..] == s;
    }
  }

  lemma EscapesParts(s: Text)
    ensures Escapes(s) == if s == [] then [] else Escaped(s[0]) + Escapes(s[1..])
  {
    hide Escaped;
  }

  lemma QuoteEnds(t: Text)
    ensures Unescape([QUOTE] + t) == Ok([], t)
  {
    assert ([QUOTE] + t)[1..] == t;
  }

  lemma BeforeOk(a: Text, b: Text, rest: Text)
    ensures Before(a, Ok(b, rest)) == Ok(a + b, rest)
  {
  }

  lemma StringBack(s: Text, t: Text)
    ensures ParseString(PrintString(s) + t) == Ok(s, t)
  {
    EscapesBack(s, t);
    hide Escapes, Unescape;
    assert (PrintString(s) + t)[1..] == Escapes(s) + [QUOTE] + t;
  }

  /** The pair of RFC 2781, section 2.2, which adds 0x10000 where the code ors it:
      they agree exactly when bit 6 of the high surrogate is clear. */
  lemma JoinedRight(uc: nat, uc2: nat)
    requires HighSurrogate(uc) && LowSurrogate(uc2)
    ensures Joined(uc, uc2) == 0x10000 + (uc - 0xD800) * 0x400 + (uc2 - 0xDC00) <==> uc / 64 % 2 == 0
  {
    assert uc % 0x400 == uc - 0xD800 && uc2 % 0x400 == uc2 - 0xDC00;
  }

  /** The pair of U+20000, as text, decodes to U+10000. */
  lemma SurrogateLost()
    ensures var text: Text := [QUOTE, BACKSLASH, LETTER_U, 100, 56, 52, 48,
                               BACKSLASH, LETTER_U, 100, 99, 48, 48, QUOTE];
            ParseString(text) == Ok(Utf8(0x10000), [])
    ensures FourHexValue([100, 56, 52, 48], 0) == 0xD800 + (0x20000 - 0x10000) / 0x400
    ensures FourHexValue([100, 99, 48, 48], 0) == 0xDC00 + (0x20000 - 0x10000) % 0x400
    ensures Utf8(0x10000) != Utf8(0x20000)
  {
    var text: Text := [QUOTE, BACKSLASH, LETTER_U, 100, 56, 52, 48, BACKSLASH, LETTER_U, 100, 99, 48, 48, QUOTE];
    var t := text[1..];
    SurrogateUnits(t);
    assert t[12..] == [QUOTE];
    assert Unicode(t) == Ok(Utf8(0x10000), [QUOTE]);
    assert Unescape(t) == Before(Utf8(0x10000), Unescape([QUOTE]));
    hide FourHexValue, FourHex;
    assert [QUOTE] + [] == [QUOTE];
    QuoteEnds([]);
    assert Utf8(0x10000) + [] == Utf8(0x10000) && Utf8(0x10000)[1] != Utf8(0x20000)[1];
  }

  lemma SurrogateUnits(t: Text)
    requires t == [BACKSLASH, LETTER_U, 100, 56, 52, 48, BACKSLASH, LETTER_U, 100, 99, 48, 48, QUOTE]
    ensures FourHex(t, 2) && FourHexValue(t, 2) == 0xD840 && FourHex(t, 8) && FourHexValue(t, 8) == 0xDC00
    ensures Joined(0xD840, 0xDC00) == 0x10000
  {
  }

  // ----- numbers -----

  /** parse_number */
  function ParseNumber(t: Text): (r: (Json, Text))
    requires At(t, 0) == MINUS || IsDigit(At(t, 0))
    ensures |r.1| < |t|
  {
    var (m, e, rest) := ReadNumber(t);
    (Number(m, e), rest)
  }

  lemma ParseNumberBack(mant: int, exp: int, t: Text)
    requires EndsNumber(t)
    ensures var s, (m, e) := NumberText(mant, exp) + t, ReadBack(mant, exp);
            (At(s, 0) == MINUS || IsDigit(At(s, 0))) && ParseNumber(s) == (Number(m, e), t)
  {
    hide *;
    NumberBack(mant, exp, t);
    ParseNumberIs(NumberText(mant, exp) + t);
  }

  lemma ParseNumberIs(t: Text)
    requires At(t, 0) == MINUS || IsDigit(At(t, 0))
    ensures var (m, e, rest) := ReadNumber(t); ParseNumber(t) == (Number(m, e), rest)
  {
    hide ReadNumber;
  }

  // ----- values -----

  predicate Starts(t: Text, word: Text) { |t| >= |word| && t[..|word|] == word }

  /** parse_value */
  function ParseValue(t: Text): (r: Parsed<Json>)
    ensures r.Ok? ==> |r.rest| < |t|
    decreases |t|, 1
  {
    if Starts(t, NULL_TEXT) then Ok(Null, t[4..])
    else if Starts(t, FALSE_TEXT) then Ok(False, t[5..])
    else if Starts(t, TRUE_TEXT) then Ok(True, t[4..])
    else if At(t, 0) == QUOTE then
      match ParseString(t)
      case Ok(s, rest) => Ok(String(s), rest)
      case Fail(at) => Fail(at)
      case Wild => Wild
    else if At(t, 0) == MINUS || IsDigit(At(t, 0)) then
      var (n, rest) := ParseNumber(t);
      Ok(n, rest)
    else if At(t, 0) == LBRACKET then ParseArray(t)
    else if At(t, 0) == LBRACE then ParseObject(t)
    else Fail(t)
  }

  /** parse_array */
  function ParseArray(t: Text): (r: Parsed<Json>)
    requires At(t, 0) == LBRACKET
    ensures r.Ok? ==> |r.rest| < |t|
    decreases |t|, 0
  {
    var u := Skip(t[1..]);
    if At(u, 0) == RBRACKET then Ok(Array([]), u[1..])
    else
      match ParseItems(u)
      case Ok(items, rest) => Ok(Array(items), rest)
      case Fail(at) => Fail(at)
      case Wild => Wild
  }

  /** The items of an array, from the first one to the closing bracket. */
  function ParseItems(t: Text): (r: Parsed<seq<Json>>)
    ensures r.Ok? ==> |r.rest| < |t| && r.value != []
    decreases |t|, 2
  {
    match ParseValue(Skip(t))
    case Fail(at) => Fail(at)
    case Wild => Wild
    case Ok(v, rest) =>
      var u := Skip(rest);
      if At(u, 0) == COMMA then
        match ParseItems(u[1..])
        case Ok(vs, end) => Ok([v] + vs, end)
        case Fail(at) => Fail(at)
        case Wild => Wild
      else if At(u, 0) == RBRACKET then Ok([v], u[1..])
      else Fail(u)
  }

  /** parse_object */
  function ParseObject(t: Text): (r: Parsed<Json>)
    requires At(t, 0) == LBRACE
    ensures r.Ok? ==> |r.rest| < |t|
    decreases |t|, 0
  {
    var u := Skip(t[1..]);
    if At(u, 0) == RBRACE then Ok(Object([]), u[1..])
    else
      match ParseMembers(u)
      case Ok(ms, rest) => Ok(Object(ms), rest)
      case Fail(at) => Fail(at)
      case Wild => Wild
  }

  /** One member: its name, a colon and its value. */
  function ParseMember(t: Text): (r: Parsed<Member>)
    ensures r.Ok? ==> |r.rest| < |t|
    decreases |t|, 2
  {
    match ParseString(Skip(t))
    case Fail(at) => Fail(at)
    case Wild => Wild
    case Ok(name, rest) =>
      var u := Skip(rest);
      if At(u, 0) != COLON then Fail(u)
      else
        match ParseValue(Skip(u[1..]))
        case Ok(v, end) => Ok(Member(name, v), end)
        case Fail(at) => Fail(at)
        case Wild => Wild
  }

  /** The members of an object, from the first one to the closing brace. */
  function ParseMembers(t: Text): (r: Parsed<seq<Member>>)
    ensures r.Ok? ==> |r.rest| < |t| && r.value != []
    decreases |t|, 3
  {
    match ParseMember(t)
    case Fail(at) => Fail(at)
    case Wild => Wild
    case Ok(m, rest) =>
      var u := Skip(rest);
      if At(u, 0) == COMMA then
        match ParseMembers(u[1..])
        case Ok(ms, end) => Ok([m] + ms, end)
        case Fail(at) => Fail(at)
        case Wild => Wild
      else if At(u, 0) == RBRACE then Ok([m], u[1..])
      else Fail(u)
  }

  /** cJSON_Parse: what follows the value is not looked at. */
  function Parse(t: Text): Parsed<Json> { ParseValue(Skip(t)) }

  // ----- printing -----

  function Tabs(n: nat): (r: Text)
    ensures |r| == n && forall i :: 0 <= i < n ==> r[i] == TAB
  {
    seq(n, _ => TAB)
  }

  function If(fmt: bool, t: Text): Text { if fmt then t else [] }

  /** print_value at a depth, formatted or not. */
  function Print(v: Json, depth: nat, fmt: bool): Text
    decreases v, 1
  {
    match v
    case Null => NULL_TEXT
    case False => FALSE_TEXT
    case True => TRUE_TEXT
    case Number(mant, exp) => NumberText(mant, exp)
    case String(s) => PrintString(s)
    case Array(items) => [LBRACKET] + PrintItems(items, depth + 1, fmt) + [RBRACKET]
    case Object(members) =>
      [LBRACE] + If(fmt, [NEWLINE]) + PrintMembers(members, depth + 1, fmt) + If(fmt, Tabs(depth)) + [RBRACE]
  }

  function PrintItems(items: seq<Json>, depth: nat, fmt: bool): Text
    decreases items, 0
  {
    if items == [] then []
    else if |items| == 1 then Print(items[0], depth, fmt)
    else Print(items[0], depth, fmt) + ([COMMA] + If(fmt, [SPACE])) + PrintItems(items[1..], depth, fmt)
  }

  function PrintMember(m: Member, depth: nat, fmt: bool): Text
    decreases m, 2
  {
    If(fmt, Tabs(depth)) + PrintString(m.name) + ([COLON] + If(fmt, [TAB])) + Print(m.value, depth, fmt)
  }

  function PrintMembers(members: seq<Member>, depth: nat, fmt: bool): Text
    decreases members, 0
  {
    if members == [] then []
    else
      PrintMember(members[0], depth, fmt) + If(|members| > 1, [COMMA]) + If(fmt, [NEWLINE])
      + PrintMembers(members[1..], depth, fmt)
  }

  /** Every number fits the buffer it is printed into; everything else prints. */
  predicate Printable(v: Json)
    decreases v, 0
  {
    match v
    case Number(mant, exp) => InBuffer(mant, exp)
    case Array(items) => forall i :: 0 <= i < |items| ==> Printable(items[i])
    case Object(members) => forall i :: 0 <= i < |members| ==> Printable(members[i].value)
    case _ => true
  }

  /** The tree that a parse of the print gives: its numbers are read back as they were written. */
  function AsRead(v: Json): Json
    decreases v, 1
  {
    match v
    case Number(mant, exp) => var (m, e) := ReadBack(mant, exp); Number(m, e)
    case Array(items) => Array(ItemsAsRead(items))
    case Object(members) => Object(MembersAsRead(members))
    case _ => v
  }

  function ItemsAsRead(items: seq<Json>): (r: seq<Json>)
    ensures |r| == |items|
    decreases items, 0
  {
    if items == [] then [] else [AsRead(items[0])] + ItemsAsRead(items[1..])
  }

  function MemberAsRead(m: Member): Member
    decreases m, 2
  {
    Member(m.name, AsRead(m.value))
  }

  function MembersAsRead(members: seq<Member>): (r: seq<Member>)
    ensures |r| == |members|
    decreases members, 0
  {
    if members == [] then [] else [MemberAsRead(members[0])] + MembersAsRead(members[1..])
  }

  // ----- the round trip -----

  predicate Blank(t: Text) { forall i :: 0 <= i < |t| ==> t[i] <= SPACE }

  lemma {:induction false} SkipBlank(b: Text, t: Text)
    requires Blank(b)
    ensures Skip(b + t) == Skip(t)
  {
    if b == [] {
      assert b + t == t;
    } else {
      assert (b + t)[1..] == b[1..] + t;
      SkipBlank(b[1..], t);
    }
  }

  /** A printed value starts with a character that skip leaves and that closes nothing. */
  lemma PrintStart(v: Json, depth: nat, fmt: bool)
    ensures var p := Print(v, depth, fmt); p != [] && p[0] > SPACE && p[0] != RBRACKET && p[0] != RBRACE
  {
    hide NumberText;
    if v.Number? { NumberStart(v.mant, v.exp); }
  }

  lemma NumberStart(mant: int, exp: int)
    ensures var p := NumberText(mant, exp); p != [] && (p[0] == MINUS || IsDigit(p[0]))
  {
    NumberBack(mant, exp, []);
    hide NumberText;
    assert NumberText(mant, exp) + [] == NumberText(mant, exp);
  }

  lemma SkipNone(p: Text, t: Text)
    requires p != [] && p[0] > SPACE
    ensures Skip(p + t) == p + t && At(p + t, 0) == p[0]
  {
  }

  lemma WordBack(v: Json, word: Text, t: Text)
    requires (v == Null && word == NULL_TEXT) || (v == False && word == FALSE_TEXT) || (v == True && word == TRUE_TEXT)
    ensures ParseValue(word + t) == Ok(v, t)
  {
    var s := word + t;
    assert s[..|word|] == word && s[|word|..] == t;
    assert s[0] == word[0];
    assert !Starts(s, NULL_TEXT) || s[0] == 110;
    assert !Starts(s, FALSE_TEXT) || s[0] == 102;
    assert !Starts(s, TRUE_TEXT) || s[0] == 116;
  }

  /** The three words start with their own letters. */
  lemma NoWord(s: Text)
    requires At(s, 0) != 110 && At(s, 0) != 102 && At(s, 0) != 116
    ensures !Starts(s, NULL_TEXT) && !Starts(s, FALSE_TEXT) && !Starts(s, TRUE_TEXT)
  {
  }

  /** Parsing what was printed, at any depth, formatted or not, gives the tree back with its numbers as
      they were written, and stops where the print ended, whatever follows that cannot extend a number. */
  lemma {:induction false} ValueBack(v: Json, depth: nat, fmt: bool, t: Text)
    requires v.Number? ==> EndsNumber(t)
    ensures ParseValue(Print(v, depth, fmt) + t) == Ok(AsRead(v), t)
    decreases v, 1
  {
    hide NumberText, ReadBack, ParseNumber;
    var s := Print(v, depth, fmt) + t;
    match v
    case Null => WordBack(v, NULL_TEXT, t);
    case False => WordBack(v, FALSE_TEXT, t);
    case True => WordBack(v, TRUE_TEXT, t);
    case Number(mant, exp) =>
      ParseNumberBack(mant, exp, t);
      NoWord(s);
    case String(str) =>
      StringBack(str, t);
      NoWord(s);
    case Array(items) => ArrayBack(v, depth, fmt, t);
    case Object(members) => ObjectBack(v, depth, fmt, t);
  }

  lemma {:induction false} ArrayBack(v: Json, depth: nat, fmt: bool, t: Text)
    requires v.Array?
    ensures ParseValue(Print(v, depth, fmt) + t) == Ok(AsRead(v), t)
    decreases v, 0
  {
    hide *;
    var s, items := Print(v, depth, fmt) + t, v.items;
    var body := PrintItems(items, depth + 1, fmt);
    ArrayShape(v, depth, fmt, t);
    SkipBracket(t);
    if items == [] {
      NoBody(depth, fmt, t);
      ArrayText(s, [RBRACKET] + t, [], t);
    } else {
      ItemsStart(items, depth + 1, fmt, [RBRACKET] + t);
      ItemsBack(items, depth + 1, fmt, t);
      ArrayText(s, body + ([RBRACKET] + t), ItemsAsRead(items), t);
    }
    ArrayAsRead(v);
  }

  lemma ArrayShape(v: Json, depth: nat, fmt: bool, t: Text)
    requires v.Array?
    ensures var s := Print(v, depth, fmt) + t;
            At(s, 0) == LBRACKET && s[1..] == PrintItems(v.items, depth + 1, fmt) + ([RBRACKET] + t)
  {
    hide PrintItems;
  }

  lemma NoBody(depth: nat, fmt: bool, t: Text)
    ensures PrintItems([], depth + 1, fmt) + ([RBRACKET] + t) == [RBRACKET] + t && ([RBRACKET] + t)[1..] == t
  {
  }

  lemma ArrayAsRead(v: Json)
    requires v.Array?
    ensures AsRead(v) == Array(ItemsAsRead(v.items)) && (v.items == [] ==> ItemsAsRead(v.items) == [])
  {
  }

  lemma ItemsStart(items: seq<Json>, depth: nat, fmt: bool, t: Text)
    requires items != []
    ensures var s := PrintItems(items, depth, fmt) + t; Skip(s) == s && At(s, 0) != RBRACKET
  {
    PrintStart(items[0], depth, fmt);
    hide Print;
    assert PrintItems(items, depth, fmt)[0] == Print(items[0], depth, fmt)[0];
    SkipNone(PrintItems(items, depth, fmt), t);
  }

  lemma ArrayText(s: Text, u: Text, items: seq<Json>, t: Text)
    requires At(s, 0) == LBRACKET && Skip(s[1..]) == u
    requires if items == [] then u == [RBRACKET] + t && u[1..] == t
             else At(u, 0) != RBRACKET && ParseItems(u) == Ok(items, t)
    ensures ParseValue(s) == Ok(Array(items), t)
  {
    hide Skip, ParseItems;
    NoWord(s);
  }

  lemma ItemsShape(items: seq<Json>, depth: nat, fmt: bool, close: Text)
    requires items != []
    ensures var first := Print(items[0], depth, fmt);
            PrintItems(items, depth, fmt) + close
            == if |items| == 1 then first + close
               else first + ([COMMA] + (If(fmt, [SPACE]) + (PrintItems(items[1..], depth, fmt) + close)))
  {
    hide Print;
    if |items| > 1 {
      Gather(Print(items[0], depth, fmt), [COMMA], If(fmt, [SPACE]), PrintItems(items[1..], depth, fmt), close);
    }
  }

  lemma Gather<T>(a: seq<T>, b: seq<T>, c: seq<T>, d: seq<T>, e: seq<T>)
    ensures a + (b + c) + d + e == a + (b + (c + (d + e)))
  {
  }

  lemma {:induction false} ItemsBack(items: seq<Json>, depth: nat, fmt: bool, t: Text)
    requires items != []
    ensures ParseItems(PrintItems(items, depth, fmt) + ([RBRACKET] + t)) == Ok(ItemsAsRead(items), t)
    decreases items, 0
  {
    hide *;
    var close := [RBRACKET] + t;
    var first, s := Print(items[0], depth, fmt), PrintItems(items, depth, fmt) + close;
    PrintStart(items[0], depth, fmt);
    ItemsShape(items, depth, fmt, close);
    SkipBracket(t);
    ItemsAsReadStep(items);
    if |items| == 1 {
      SkipNone(first, close);
      ValueBack(items[0], depth, fmt, close);
      ItemsLast(s, AsRead(items[0]), close, t);
    } else {
      var gap := If(fmt, [SPACE]);
      var more := PrintItems(items[1..], depth, fmt) + close;
      var rest := [COMMA] + (gap + more);
      SkipNone(first, rest);
      CommaEnds(gap + more);
      ValueBack(items[0], depth, fmt, rest);
      GapBlank(fmt);
      SkipBlank(gap, more);
      ItemsBack(items[1..], depth, fmt, t);
      ItemsSkip(gap + more, more);
      ItemsMore(s, AsRead(items[0]), rest, gap + more, ItemsAsRead(items[1..]), t);
    }
  }

  lemma ItemsAsReadStep(items: seq<Json>)
    requires items != []
    ensures ItemsAsRead(items) == [AsRead(items[0])] + ItemsAsRead(items[1..])
    ensures |items| == 1 ==> ItemsAsRead(items) == [AsRead(items[0])]
  {
  }

  lemma SkipBracket(t: Text)
    ensures Skip([RBRACKET] + t) == [RBRACKET] + t && EndsNumber([RBRACKET] + t)
  {
  }

  lemma CommaEnds(t: Text)
    ensures Skip([COMMA] + t) == [COMMA] + t && EndsNumber([COMMA] + t)
  {
  }

  lemma GapBlank(fmt: bool)
    ensures Blank(If(fmt, [SPACE]))
  {
  }

  lemma ItemsLast(s: Text, v: Json, rest: Text, t: Text)
    requires ParseValue(Skip(s)) == Ok(v, rest) && Skip(rest) == [RBRACKET] + t
    ensures ParseItems(s) == Ok([v], t)
  {
    hide Skip, ParseValue;
    assert ([RBRACKET] + t)[1..] == t;
  }

  lemma ItemsMore(s: Text, v: Json, rest: Text, u: Text, vs: seq<Json>, t: Text)
    requires ParseValue(Skip(s)) == Ok(v, rest) && Skip(rest) == [COMMA] + u && ParseItems(u) == Ok(vs, t)
    ensures ParseItems(s) == Ok([v] + vs, t)
  {
    hide Skip, ParseValue;
    assert ([COMMA] + u)[1..] == u;
  }

  lemma ItemsSkip(s: Text, t: Text)
    requires Skip(s) == Skip(t)
    ensures ParseItems(s) == ParseItems(t)
  {
    hide Skip, ParseValue;
  }

  lemma MembersSkip(s: Text, t: Text)
    requires Skip(s) == Skip(t)
    ensures ParseMembers(s) == ParseMembers(t)
  {
    hide Skip, ParseValue, ParseString;
  }

  lemma {:induction false} ObjectBack(v: Json, depth: nat, fmt: bool, t: Text)
    requires v.Object?
    ensures ParseValue(Print(v, depth, fmt) + t) == Ok(AsRead(v), t)
    decreases v, 0
  {
    hide *;
    var s, members := Print(v, depth, fmt) + t, v.members;
    var body, close := PrintMembers(members, depth + 1, fmt), If(fmt, Tabs(depth)) + [RBRACE] + t;
    ObjectShape(v, depth, fmt, t);
    LineEndBlank(fmt, depth);
    SkipBlank(If(fmt, [NEWLINE]), body + close);
    if members == [] {
      EmptyBody(depth, fmt, t);
      ObjectText(s, [RBRACE] + t, [], t);
    } else {
      MembersBack(members, depth, fmt, t);
      MembersStart(members, depth + 1, fmt, close);
      SkipTwice(body + close);
      MembersSkip(Skip(body + close), body + close);
      ObjectText(s, Skip(body + close), MembersAsRead(members), t);
    }
    ObjectAsRead(v);
  }

  lemma LineEndBlank(fmt: bool, depth: nat)
    ensures Blank(If(fmt, [NEWLINE])) && Blank(If(fmt, Tabs(depth)))
  {
  }

  lemma EmptyBody(depth: nat, fmt: bool, t: Text)
    ensures Skip(PrintMembers([], depth + 1, fmt) + (If(fmt, Tabs(depth)) + [RBRACE] + t)) == [RBRACE] + t
    ensures ([RBRACE] + t)[1..] == t
  {
    LineEndBlank(fmt, depth);
    SkipBlank(If(fmt, Tabs(depth)), [RBRACE] + t);
    SkipNone([RBRACE], t);
    hide Skip, If, Tabs;
    assert PrintMembers([], depth + 1, fmt) + (If(fmt, Tabs(depth)) + [RBRACE] + t)
        == If(fmt, Tabs(depth)) + ([RBRACE] + t);
  }

  lemma ObjectAsRead(v: Json)
    requires v.Object?
    ensures AsRead(v) == Object(MembersAsRead(v.members)) && (v.members == [] ==> MembersAsRead(v.members) == [])
  {
  }

  lemma ObjectText(s: Text, u: Text, ms: seq<Member>, t: Text)
    requires At(s, 0) == LBRACE && Skip(s[1..]) == u
    requires if ms == [] then u == [RBRACE] + t && u[1..] == t else At(u, 0) != RBRACE && ParseMembers(u) == Ok(ms, t)
    ensures ParseValue(s) == Ok(Object(ms), t)
  {
    hide Skip, ParseMembers;
    NoWord(s);
  }

  lemma MembersLast(s: Text, m: Member, rest: Text, t: Text)
    requires ParseMember(s) == Ok(m, rest) && Skip(rest) == [RBRACE] + t
    ensures ParseMembers(s) == Ok([m], t)
  {
    hide Skip, ParseMember;
    assert ([RBRACE] + t)[1..] == t;
  }

  lemma MembersMore(s: Text, m: Member, rest: Text, x: Text, ms: seq<Member>, t: Text)
    requires ParseMember(s) == Ok(m, rest) && Skip(rest) == [COMMA] + x && ParseMembers(x) == Ok(ms, t)
    ensures ParseMembers(s) == Ok([m] + ms, t)
  {
    hide Skip, ParseMember;
    assert ([COMMA] + x)[1..] == x;
  }

  lemma ObjectShape(v: Json, depth: nat, fmt: bool, t: Text)
    requires v.Object?
    ensures var s := Print(v, depth, fmt) + t;
            && At(s, 0) == LBRACE
            && s[1..] == If(fmt, [NEWLINE]) + (PrintMembers(v.members, depth + 1, fmt) + (If(fmt,
                    Tabs(depth)) + [RBRACE] + t))
  {
    hide PrintMembers;
    var a, b, c := If(fmt, [NEWLINE]), PrintMembers(v.members, depth + 1, fmt), If(fmt, Tabs(depth));
    assert [LBRACE] + a + b + c + [RBRACE] + t == [LBRACE] + (a + (b + (c + [RBRACE] + t)));
  }

  lemma {:induction false} SkipTwice(t: Text)
    ensures Skip(Skip(t)) == Skip(t)
  {
    if t != [] && t[0] <= SPACE { SkipTwice(t[1..]); }
  }

  lemma MembersStart(members: seq<Member>, depth: nat, fmt: bool, t: Text)
    requires members != []
    ensures At(Skip(PrintMembers(members, depth, fmt) + t), 0) == QUOTE != RBRACE
  {
    var m, tabs := members[0], If(fmt, Tabs(depth));
    MembersShape(members, depth, fmt, t);
    hide PrintMembers, PrintString, PrintMember, Skip;
    var tail := if |members| == 1 then If(fmt, [NEWLINE]) + t
                else [COMMA] + (If(fmt, [NEWLINE]) + (PrintMembers(members[1..], depth, fmt) + t));
    var rest := [COLON] + (If(fmt, [TAB]) + (Print(m.value, depth, fmt) + tail));
    MemberShape(m, depth, fmt, tail);
    SkipBlank(tabs, PrintString(m.name) + rest);
    StringStart(m.name);
    SkipNone(PrintString(m.name), rest);
  }

  lemma MemberShape(m: Member, depth: nat, fmt: bool, t: Text)
    ensures PrintMember(m, depth, fmt) + t
            == If(fmt, Tabs(depth)) + (PrintString(m.name) + ([COLON] + (If(fmt, [TAB]) + (Print(m.value, depth,
                    fmt) + t))))
  {
    hide Print, PrintString;
    var a, b, c, d := If(fmt, Tabs(depth)), PrintString(m.name), If(fmt, [TAB]), Print(m.value, depth, fmt);
    Gather(a + b, [COLON], c, d, t);
    assert a + b + ([COLON] + (c + (d + t))) == a + (b + ([COLON] + (c + (d + t))));
  }

  lemma StringStart(s: Text)
    ensures PrintString(s) != [] && PrintString(s)[0] == QUOTE
  {
  }

  lemma MembersShape(members: seq<Member>, depth: nat, fmt: bool, close: Text)
    requires members != []
    ensures var first, line := PrintMember(members[0], depth, fmt), If(fmt, [NEWLINE]);
            PrintMembers(members, depth, fmt) + close
            == if |members| == 1 then first + (line + close)
               else first + ([COMMA] + (line + (PrintMembers(members[1..], depth, fmt) + close)))
  {
    hide Print, PrintMember;
    var first, line := PrintMember(members[0], depth, fmt), If(fmt, [NEWLINE]);
    if |members| == 1 {
      assert members[1..] == [];
      assert first + [] + line + [] + close == first + (line + close);
    } else {
      var more := PrintMembers(members[1..], depth, fmt);
      assert first + [COMMA] + line + more == first + ([COMMA] + line) + more;
      Gather(first, [COMMA], line, more, close);
    }
  }

  lemma {:induction false} MemberBack(m: Member, depth: nat, fmt: bool, t: Text)
    requires m.value.Number? ==> EndsNumber(t)
    ensures ParseMember(PrintMember(m, depth, fmt) + t) == Ok(MemberAsRead(m), t)
    decreases m, 2
  {
    var tabs, tab := If(fmt, Tabs(depth)), If(fmt, [TAB]);
    var value := Print(m.value, depth, fmt) + t;
    var rest := [COLON] + (tab + value);
    MemberShape(m, depth, fmt, t);
    SkipBlank(tabs, PrintString(m.name) + rest);
    StringStart(m.name);
    SkipNone(PrintString(m.name), rest);
    StringBack(m.name, rest);
    SkipNone([COLON], tab + value);
    assert rest[1..] == tab + value;
    SkipBlank(tab, value);
    PrintStart(m.value, depth, fmt);
    SkipNone(Print(m.value, depth, fmt), t);
    ValueBack(m.value, depth, fmt, t);
    hide Print, PrintString, PrintMember, Skip, ParseString, ParseValue, Tabs, AsRead;
  }

  lemma {:induction false} MembersBack(members: seq<Member>, depth: nat, fmt: bool, t: Text)
    requires members != []
    ensures ParseMembers(PrintMembers(members, depth + 1, fmt) + (If(fmt, Tabs(depth)) + [RBRACE] + t))
            == Ok(MembersAsRead(members), t)
    decreases members, 0
  {
    hide Print, PrintMembers, PrintMember, ParseMember, ParseMembers, Skip, Tabs, MemberAsRead, MembersAsRead;
    MembersAsReadStep(members);
    var m, close := members[0], If(fmt, Tabs(depth)) + [RBRACE] + t;
    var line, s := If(fmt, [NEWLINE]), PrintMembers(members, depth + 1, fmt) + close;
    MembersShape(members, depth + 1, fmt, close);
    if |members| == 1 {
      var rest := line + close;
      EndOfLine(fmt, depth, t);
      MemberBack(m, depth + 1, fmt, rest);
      assert rest == (line + If(fmt, Tabs(depth))) + ([RBRACE] + t);
      SkipBlank(line + If(fmt, Tabs(depth)), [RBRACE] + t);
      SkipNone([RBRACE], t);
      MembersLast(s, MemberAsRead(m), rest, t);
    } else {
      var more := PrintMembers(members[1..], depth + 1, fmt) + close;
      var rest := [COMMA] + (line + more);
      MemberBack(m, depth + 1, fmt, rest);
      SkipNone([COMMA], line + more);
      SkipBlank(line, more);
      MembersBack(members[1..], depth, fmt, t);
      MembersSkip(line + more, more);
      MembersMore(s, MemberAsRead(m), rest, line + more, MembersAsRead(members[1..]), t);
    }
  }

  lemma MembersAsReadStep(members: seq<Member>)
    requires members != []
    ensures MembersAsRead(members) == [MemberAsRead(members[0])] + MembersAsRead(members[1..])
    ensures |members| == 1 ==> MembersAsRead(members) == [MemberAsRead(members[0])]
  {
    hide MemberAsRead;
  }

  lemma EndOfLine(fmt: bool, depth: nat, t: Text)
    ensures EndsNumber(If(fmt, [NEWLINE]) + (If(fmt, Tabs(depth)) + [RBRACE] + t))
  {
  }

  /** The same values, whatever the mantissas and exponents of the numbers. */
  predicate Same(v: Json, w: Json)
    decreases v, 0
  {
    match v
    case Number(mant, exp) => w.Number? && SameValue(mant, exp, w.mant, w.exp)
    case Array(items) =>
      w.Array? && |w.items| == |items| && forall i :: 0 <= i < |items| ==> Same(items[i], w.items[i])
    case Object(members) =>
      && w.Object? && |w.members| == |members|
      && forall i :: 0 <= i < |members| ==>
           members[i].name == w.members[i].name && Same(members[i].value, w.members[i].value)
    case _ => v == w
  }

  /** All numbers of the tree are. */
  predicate AllExact(v: Json)
    decreases v, 0
  {
    match v
    case Number(mant, exp) => Exact(mant, exp)
    case Array(items) => forall i :: 0 <= i < |items| ==> AllExact(items[i])
    case Object(members) => forall i :: 0 <= i < |members| ==> AllExact(members[i].value)
    case _ => true
  }

  lemma {:induction false} ItemAsRead(items: seq<Json>, i: nat)
    requires i < |items|
    ensures ItemsAsRead(items)[i] == AsRead(items[i])
  {
    if i > 0 { ItemAsRead(items[1..], i - 1); }
  }

  lemma {:induction false} MemberAtAsRead(members: seq<Member>, i: nat)
    requires i < |members|
    ensures MembersAsRead(members)[i] == MemberAsRead(members[i])
  {
    if i > 0 { MemberAtAsRead(members[1..], i - 1); }
  }

  /** What is read back is the same tree if and only if every number is one that printing loses nothing of. */
  lemma {:induction false} SameJustWhenExact(v: Json)
    ensures Same(v, AsRead(v)) <==> AllExact(v)
    decreases v
  {
    hide ReadBack, SameValue, Exact;
    match v
    case Number(mant, exp) => ReadExact(mant, exp);
    case Array(items) =>
      forall i | 0 <= i < |items| ensures Same(items[i], AsRead(v).items[i]) <==> AllExact(items[i]) {
        ItemAsRead(items, i);
        SameJustWhenExact(items[i]);
      }
    case Object(members) =>
      forall i | 0 <= i < |members|
        ensures MembersAsRead(members)[i] == MemberAsRead(members[i])
        ensures Same(members[i].value, AsRead(members[i].value)) <==> AllExact(members[i].value)
      {
        MemberAtAsRead(members, i);
        SameJustWhenExact(members[i].value);
      }
    case _ =>
  }

  /** No number has an exponent: what a tree of whole numbers looks like after a parse. */
  predicate Whole(v: Json)
    decreases v, 0
  {
    match v
    case Number(_, exp) => exp == 0
    case Array(items) => forall i :: 0 <= i < |items| ==> Whole(items[i])
    case Object(members) => forall i :: 0 <= i < |members| ==> Whole(members[i].value)
    case _ => true
  }

  lemma {:induction false} WholeAsRead(v: Json)
    requires Whole(v)
    ensures AsRead(v) == v
    decreases v
  {
    hide ReadBack;
    match v
    case Number(mant, _) => WholeReadBack(mant);
    case Array(items) =>
      forall i | 0 <= i < |items| ensures ItemsAsRead(items)[i] == items[i] {
        ItemAsRead(items, i);
        WholeAsRead(items[i]);
      }
    case Object(members) =>
      forall i | 0 <= i < |members| ensures MembersAsRead(members)[i] == members[i] {
        MemberAtAsRead(members, i);
        WholeAsRead(members[i].value);
      }
    case _ =>
  }

  /** cJSON_Parse of cJSON_Print, or of cJSON_PrintUnformatted, is the tree with its numbers as they were
      written; it is the same tree if and only if none of them lost anything. */
  lemma ParsePrint(v: Json, fmt: bool)
    ensures Parse(Print(v, 0, fmt)) == Ok(AsRead(v), []) && (Same(v, AsRead(v)) <==> AllExact(v))
    ensures Whole(v) ==> Parse(Print(v, 0, fmt)) == Ok(v, [])
  {
    SameJustWhenExact(v);
    if Whole(v) { WholeAsRead(v); }
    var p := Print(v, 0, fmt);
    assert p + [] == p;
    PrintStart(v, 0, fmt);
    SkipNone(p, []);
    ValueBack(v, 0, fmt, []);
  }

  // ----- what any parse does -----

  predicate Suffix(s: Text, t: Text) { |s| <= |t| && t[|t| - |s|..] == s }

  lemma SuffixTransitive(a: Text, b: Text, c: Text)
    requires Suffix(a, b) && Suffix(b, c)
    ensures Suffix(a, c)
  {
    var k, m := |c| - |b|, |b| - |a|;
    assert c[k..][m..] == c[k + m..];
  }

  /** Every escape has its character, every `u` escape its four hex digits. */
  predicate Complete(t: Text) {
    if t == [] then true
    else if t[0] != BACKSLASH then Complete(t[1..])
    else if |t| == 1 then false
    else if t[1] != LETTER_U then Complete(t[2..])
    else FourHex(t, 2) && Complete(t[6..])
  }

  /** A success leaves a part of the text from some place on, whose escapes are
      complete if all were; a failure points into the text; and nothing goes
      wild on complete escapes. */
  ghost predicate Disciplined<T>(t: Text, r: Parsed<T>) {
    match r
    case Ok(_, rest) => Suffix(rest, t) && (Complete(t) ==> Complete(rest))
    case Fail(at) => Suffix(at, t)
    case Wild => !Complete(t)
  }

  /** `u` can be reached from `t` over whole escapes. */
  ghost predicate Reaches(t: Text, u: Text) {
    Suffix(u, t) && (Complete(t) ==> Complete(u))
  }

  lemma ReachesOn(t: Text, u: Text, v: Text)
    requires Reaches(t, u) && Reaches(u, v)
    ensures Reaches(t, v)
  {
    SuffixTransitive(v, u, t);
  }

  lemma ReachesPlain(t: Text)
    requires t != [] && t[0] != BACKSLASH
    ensures Reaches(t, t[1..])
  {
  }

  lemma DisciplinedOn<T>(t: Text, u: Text, r: Parsed<T>)
    requires Reaches(t, u) && Disciplined(u, r)
    ensures Disciplined(t, r)
  {
    match r
    case Ok(_, rest) => ReachesOn(t, u, rest);
    case Fail(at) => SuffixTransitive(at, u, t);
    case Wild =>
  }

  lemma {:induction false} SkipReaches(t: Text)
    ensures Reaches(t, Skip(t))
  {
    if t != [] && t[0] <= SPACE {
      SkipReaches(t[1..]);
      ReachesPlain(t);
      ReachesOn(t, t[1..], Skip(t));
    }
  }

  lemma {:induction false} DigitsReach(t: Text, n: nat)
    ensures Reaches(t, Digits(t, n).1)
  {
    if t != [] && IsDigit(t[0]) {
      DigitsReach(t[1..], n * 10 + (At(t, 0) - 48));
      ReachesPlain(t);
      ReachesOn(t, t[1..], Digits(t, n).1);
    }
  }

  lemma ReachesTwo(t: Text)
    requires |t| >= 2 && t[0] != BACKSLASH && t[1] != BACKSLASH
    ensures Reaches(t, t[2..])
  {
    ReachesPlain(t);
    ReachesPlain(t[1..]);
    assert t[1..][1..] == t[2..];
    ReachesOn(t, t[1..], t[2..]);
  }

  lemma ExponentReaches(t: Text)
    ensures Reaches(t, Exponent(t).1)
  {
    if At(t, 0) == 101 || At(t, 0) == 69 {
      if At(t, 1) == 43 || At(t, 1) == MINUS {
        ReachesTwo(t);
        DigitsReach(t[2..], 0);
        ReachesOn(t, t[2..], Exponent(t).1);
      } else {
        ReachesPlain(t);
        DigitsReach(t[1..], 0);
        ReachesOn(t, t[1..], Exponent(t).1);
      }
    }
  }

  lemma NumberReaches(t: Text)
    requires At(t, 0) == MINUS || IsDigit(At(t, 0))
    ensures Reaches(t, ParseNumber(t).1)
  {
    hide Digits, Exponent, Reaches;
    var t1 := if t[0] == MINUS then t[1..] else t;
    var t2 := if At(t1, 0) == ZERO then t1[1..] else t1;
    var d := if 49 <= At(t2, 0) <= 57 then Digits(t2, 0) else (0, t2);
    var t3 := d.1;
    var f := At(t3, 0) == 46 && IsDigit(At(t3, 1));
    var t4 := if f then Digits(t3[1..], d.0).1 else t3;
    if t[0] == MINUS { ReachesPlain(t); }
    if At(t1, 0) == ZERO { ReachesPlain(t1); }
    DigitsReach(t2, 0);
    if f {
      ReachesPlain(t3);
      DigitsReach(t3[1..], d.0);
      ReachesOn(t3, t3[1..], t4);
    }
    ExponentReaches(t4);
    assert Exponent(t4).1 == ParseNumber(t).1;
    hide ParseNumber;
    ReachesSelf(t);
    ReachesSelf(t1);
    ReachesSelf(t2);
    ReachesSelf(t3);
    ReachesOn(t, t1, t2);
    ReachesOn(t, t2, t3);
    ReachesOn(t, t3, t4);
    ReachesOn(t, t4, Exponent(t4).1);
  }

  lemma ReachesSelf(t: Text)
    ensures Reaches(t, t)
  {
  }

  lemma UnicodeReaches(t: Text)
    requires At(t, 0) == BACKSLASH && At(t, 1) == LETTER_U
    ensures var u := Unicode(t); !u.Fail? && if u.Ok? then Reaches(t, u.rest) else !Complete(t)
  {
    hide FourHexValue, Utf8, Joined;
    if FourHex(t, 2) {
      var u := t[6..];
      assert Reaches(t, u);
      if At(t, 6) == BACKSLASH && At(t, 7) == LETTER_U {
        assert FourHex(u, 2) == FourHex(t, 8);
        if FourHex(t, 8) {
          assert u[6..] == t[12..];
          assert Reaches(u, t[12..]);
          ReachesOn(t, u, t[12..]);
        }
      }
    }
  }

  lemma BeforeDisciplined(t: Text, s: Text, u: Text)
    requires Reaches(t, u) && Disciplined(u, Unescape(u))
    ensures Disciplined(t, Before(s, Unescape(u)))
  {
    DisciplinedOn(t, u, Unescape(u));
    hide Unescape;
  }

  lemma {:induction false} UnescapeDisciplined(t: Text)
    ensures Disciplined(t, Unescape(t))
  {
    if t == [] {
    } else if t[0] == QUOTE {
      ReachesPlain(t);
    } else if t[0] != BACKSLASH {
      ReachesPlain(t);
      UnescapeDisciplined(t[1..]);
      BeforeDisciplined(t, [t[0]], t[1..]);
    } else if |t| == 1 {
    } else if t[1] != LETTER_U {
      assert Reaches(t, t[2..]);
      UnescapeDisciplined(t[2..]);
      BeforeDisciplined(t, [Unescaped(t[1])], t[2..]);
    } else {
      UnicodeReaches(t);
      var u := Unicode(t);
      if u.Ok? {
        UnescapeDisciplined(u.rest);
        BeforeDisciplined(t, u.value, u.rest);
      }
    }
  }

  lemma StringDisciplined(t: Text)
    ensures Disciplined(t, ParseString(t))
  {
    if At(t, 0) == QUOTE {
      UnescapeDisciplined(t[1..]);
      ReachesPlain(t);
      DisciplinedOn(t, t[1..], Unescape(t[1..]));
    }
  }

  /** A result that keeps the failure or the rest of another. */
  lemma SameDiscipline<A, B>(t: Text, a: Parsed<A>, b: Parsed<B>)
    requires Disciplined(t, a)
    requires if a.Ok? then b.Ok? && b.rest == a.rest else if a.Fail? then b.Fail? && b.at == a.at else b.Wild?
    ensures Disciplined(t, b)
  {
  }

  lemma WordReaches(t: Text, word: Text)
    requires Starts(t, word) && (word == NULL_TEXT || word == FALSE_TEXT || word == TRUE_TEXT)
    ensures Reaches(t, t[|word|..])
  {
    assert forall i :: 0 <= i < |word| ==> t[i] == t[..|word|][i] && t[i] != BACKSLASH;
    PlainReaches(t, |word|);
  }

  lemma {:induction false} PlainReaches(t: Text, k: nat)
    requires k <= |t| && forall i :: 0 <= i < k ==> t[i] != BACKSLASH
    ensures Reaches(t, t[k..])
    decreases k
  {
    if k > 0 {
      PlainReaches(t[1..], k - 1);
      assert t[1..][k - 1..] == t[k..];
      ReachesPlain(t);
      ReachesOn(t, t[1..], t[k..]);
    }
  }

  lemma {:induction false} ArrayDisciplined(t: Text)
    requires At(t, 0) == LBRACKET
    ensures Disciplined(t, ParseArray(t))
    decreases |t|, 0
  {
    hide Skip, ParseItems, Complete, Suffix;
    var u := Skip(t[1..]);
    ReachesPlain(t);
    SkipReaches(t[1..]);
    ReachesOn(t, t[1..], u);
    if At(u, 0) == RBRACKET {
      ReachesPlain(u);
      ReachesOn(t, u, u[1..]);
    } else {
      ItemsDisciplined(u);
      SameDiscipline(u, ParseItems(u), ParseArray(t));
      DisciplinedOn(t, u, ParseArray(t));
    }
  }

  lemma {:induction false} ObjectDisciplined(t: Text)
    requires At(t, 0) == LBRACE
    ensures Disciplined(t, ParseObject(t))
    decreases |t|, 0
  {
    hide Skip, ParseMembers, Complete, Suffix;
    var u := Skip(t[1..]);
    ReachesPlain(t);
    SkipReaches(t[1..]);
    ReachesOn(t, t[1..], u);
    if At(u, 0) == RBRACE {
      ReachesPlain(u);
      ReachesOn(t, u, u[1..]);
    } else {
      MembersDisciplined(u);
      SameDiscipline(u, ParseMembers(u), ParseObject(t));
      DisciplinedOn(t, u, ParseObject(t));
    }
  }

  /** parse_value succeeds with a rest further on in the text, or fails at a place
      in it, or has met an incomplete escape. */
  lemma {:induction false} ValueDisciplined(t: Text)
    ensures Disciplined(t, ParseValue(t))
    decreases |t|, 1
  {
    hide Starts, IsDigit, ParseString, ParseNumber, ParseArray, ParseObject, Complete;
    if Starts(t, NULL_TEXT) {
      WordReaches(t, NULL_TEXT);
    } else if Starts(t, FALSE_TEXT) {
      WordReaches(t, FALSE_TEXT);
    } else if Starts(t, TRUE_TEXT) {
      WordReaches(t, TRUE_TEXT);
    } else if At(t, 0) == QUOTE {
      StringDisciplined(t);
      SameDiscipline(t, ParseString(t), ParseValue(t));
    } else if At(t, 0) == MINUS || IsDigit(At(t, 0)) {
      NumberReaches(t);
    } else if At(t, 0) == LBRACKET {
      ArrayDisciplined(t);
    } else if At(t, 0) == LBRACE {
      ObjectDisciplined(t);
    } else {
      ReachesSelf(t);
    }
  }

  lemma {:induction false} ItemsDisciplined(t: Text)
    ensures Disciplined(t, ParseItems(t))
    decreases |t|, 2
  {
    hide Skip, ParseValue, Complete, Suffix;
    var s := Skip(t);
    SkipReaches(t);
    ValueDisciplined(s);
    DisciplinedOn(t, s, ParseValue(s));
    if ParseValue(s).Ok? {
      var rest := ParseValue(s).rest;
      var u := Skip(rest);
      SkipReaches(rest);
      ReachesOn(t, rest, u);
      if u != [] && u[0] != BACKSLASH { ReachesPlain(u); ReachesOn(t, u, u[1..]); }
      if At(u, 0) == COMMA {
        ItemsDisciplined(u[1..]);
        SameDiscipline(u[1..], ParseItems(u[1..]), ParseItems(t));
        DisciplinedOn(t, u[1..], ParseItems(t));
      }
    }
  }

  lemma {:induction false} MemberDisciplined(t: Text)
    ensures Disciplined(t, ParseMember(t))
    decreases |t|, 2
  {
    hide Skip, ParseString, ParseValue, Complete, Suffix;
    var s := Skip(t);
    SkipReaches(t);
    StringDisciplined(s);
    DisciplinedOn(t, s, ParseString(s));
    if ParseString(s).Ok? {
      var rest := ParseString(s).rest;
      var u := Skip(rest);
      SkipReaches(rest);
      ReachesOn(t, rest, u);
      if At(u, 0) == COLON {
        ReachesPlain(u);
        var w := Skip(u[1..]);
        SkipReaches(u[1..]);
        ReachesOn(u, u[1..], w);
        ReachesOn(t, u, w);
        ValueDisciplined(w);
        SameDiscipline(w, ParseValue(w), ParseMember(t));
        DisciplinedOn(t, w, ParseMember(t));
      }
    }
  }

  lemma {:induction false} MembersDisciplined(t: Text)
    ensures Disciplined(t, ParseMembers(t))
    decreases |t|, 3
  {
    hide Skip, ParseMember, Complete, Suffix;
    MemberDisciplined(t);
    if ParseMember(t).Ok? {
      var rest := ParseMember(t).rest;
      var u := Skip(rest);
      SkipReaches(rest);
      ReachesOn(t, rest, u);
      if u != [] && u[0] != BACKSLASH { ReachesPlain(u); ReachesOn(t, u, u[1..]); }
      if At(u, 0) == COMMA {
        MembersDisciplined(u[1..]);
        SameDiscipline(u[1..], ParseMembers(u[1..]), ParseMembers(t));
        DisciplinedOn(t, u[1..], ParseMembers(t));
      }
    }
  }

  /** cJSON_Parse on any text: a tree and a strict suffix, or a place in the text where it failed;
      the third outcome only where some escape in the text is incomplete. */
  lemma ParseDisciplined(t: Text)
    ensures var r := Parse(t);
            && (r.Ok? ==> Suffix(r.rest, t) && |r.rest| < |t|)
            && (r.Fail? ==> Suffix(r.at, t))
            && (Complete(t) ==> !r.Wild?)
  {
    SkipReaches(t);
    ValueDisciplined(Skip(t));
    DisciplinedOn(t, Skip(t), Parse(t));
  }

  /** A string that is nothing but a cut escape. */
  lemma EscapeCutShort()
    ensures Parse([QUOTE, BACKSLASH]).Wild?
  {
    var t: Text := [QUOTE, BACKSLASH];
    assert Skip(t) == t && t[1..] == [BACKSLASH];
    NoWord(t);
    UnescapeWild([BACKSLASH]);
  }

  /** What stands behind the value does not matter: the text `1\` parses, although its escape is cut short. */
  lemma EscapeBehindValue()
    ensures Parse([49, 92]) == Ok(Number(1, 0), [92]) && !Complete([49, 92])
  {
    var t: Text := [49, 92];
    assert Skip(t) == t;
    assert t[1..] == [92];
    NoWord(t);
    assert Digits(t, 0) == Digits([92], 1) == (1, [92]);
  }
}
