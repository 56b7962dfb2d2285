/** What the printers of src/cJSON.c write, and that it is JSON. */
module JsonConform {
  import opened Decimals
  import opened JsonText
  import opened JsonGrammar

  // ----- what the printers write is in the grammar -----

  /** The letter the printer writes for a character. */
  function LetterOf(c: Char): Letter {
    if c == '\"' as int then Short('\"')
    else if c == '\\' as int then Short('\\')
    else if c == 8 then Short('b')
    else if c == 12 then Short('f')
    else if c == 10 then Short('n')
    else if c == 13 then Short('r')
    else if c == 9 then Short('t')
    else if c < 0x20 then Unit(c, [false, false, false, false])
    else Raw(c)
  }

  function LettersOf(s: Text): (xs: seq<Letter>)
    ensures |xs| == |s| && forall i :: 0 <= i < |s| ==> xs[i] == LetterOf(s[i])
  {
    seq(|s|, i requires 0 <= i < |s| => LetterOf(s[i]))
  }

  lemma EscapedIs(c: Char)
    ensures IsLetter(LetterOf(c)) && Kept(LetterOf(c)) && LetterText(LetterOf(c)) == Escaped(c)
  {
    if c < 0x20 && c != 8 && c != 9 && c != 10 && c != 12 && c != 13 {
      ControlDigits(c);
      assert Ascii("\\u") == [BACKSLASH, LETTER_U];
    }
  }

  lemma ControlDigits(c: Char)
    requires c < 0x20
    ensures FourDigits(c, [false, false, false, false]) == [ZERO, ZERO, HexDigit(c / 16), HexDigit(c % 16)]
  {
    assert c / 4096 == 0 && c / 256 % 16 == 0 && c / 16 % 16 == c / 16;
    LowerDigit(0);
    LowerDigit(c / 16);
    LowerDigit(c % 16);
    hide Hex, HexDigit;
  }

  lemma LowerDigit(d: nat)
    requires d < 16
    ensures Hex(d, false) == HexDigit(d)
  {
  }

  lemma {:induction false} EscapesAre(s: Text)
    ensures var xs := LettersOf(s); AreLetters(xs) && AllKept(xs) && LettersText(xs) == Escapes(s)
  {
    hide LetterOf, LetterText, Escaped, IsLetter, Kept;
    var xs := LettersOf(s);
    forall i | 0 <= i < |s| ensures IsLetter(xs[i]) && Kept(xs[i]) { EscapedIs(s[i]); }
    if s != [] {
      EscapesAre(s[1..]);
      EscapedIs(s[0]);
      assert LettersOf(s)[1..] == LettersOf(s[1..]);
    }
  }

  lemma StringIsQuoted(s: Text)
    ensures AreLetters(LettersOf(s)) && AllKept(LettersOf(s)) && QuotedText(LettersOf(s)) == PrintString(s)
  {
    EscapesAre(s);
    hide LettersText, Escapes, AreLetters, AllKept, LettersOf;
    assert Ascii("\"") == [QUOTE];
  }

  /** A string is printed as it is if and only if it has no quote, no backslash and nothing below 32. */
  lemma {:induction false} PlainStays(s: Text)
    ensures Escapes(s) == s <==> forall i :: 0 <= i < |s| ==> s[i] >= 0x20 && s[i] != '\"' as int && s[i] != '\\' as int
  {
    if s != [] {
      var e, rest := Escaped(s[0]), Escapes(s[1..]);
      PlainStays(s[1..]);
      EscapesLonger(s[1..]);
      assert forall i :: 0 < i < |s| ==> s[i] == s[1..][i - 1];
      if s[0] >= 0x20 && s[0] != '\"' as int && s[0] != '\\' as int {
        assert Escapes(s)[1..] == rest && s == [s[0]] + s[1..];
      } else {
        assert |Escapes(s)| > |s|;
      }
    }
  }

  lemma {:induction false} EscapesLonger(s: Text)
    ensures |Escapes(s)| >= |s|
  {
    if s != [] { EscapesLonger(s[1..]); }
  }

  function DigitsOf(n: nat): (ds: seq<nat>)
    ensures ds != []
  {
    if n < 10 then [n] else DigitsOf(n / 10) + [n % 10]
  }

  function PaddedOf(x: nat, w: nat): (ds: seq<nat>)
    ensures |ds| == w
  {
    if w == 0 then [] else PaddedOf(x / 10, w - 1) + [x % 10]
  }

  lemma {:induction false} DecimalIs(n: nat)
    ensures AreDigits(DigitsOf(n)) && DigitsText(DigitsOf(n)) == Decimal(n)
    ensures n > 0 ==> DigitsOf(n)[0] != 0
    ensures n == 0 ==> DigitsOf(n) == [0]
  {
    hide DigitText;
    DigitRead(n % 10);
    if n >= 10 {
      DecimalIs(n / 10);
    }
  }

  lemma {:induction false} PaddedIs(x: nat, w: nat)
    ensures AreDigits(PaddedOf(x, w)) && DigitsText(PaddedOf(x, w)) == Padded(x, w)
  {
    hide DigitText;
    DigitRead(x % 10);
    if w > 0 { PaddedIs(x / 10, w - 1); }
  }

  function IntFigure(i: int): Syntax { Figure(i < 0, DigitsOf(Abs(i)), [], NoScale) }

  function MillionthsFigure(negative: bool, k: nat, scale: Scale): Syntax {
    Figure(negative, DigitsOf(k / 1_000_000), PaddedOf(k % 1_000_000, 6), scale)
  }

  function ExponentScale(x: int): Scale {
    Scale(false, if x < 0 then Minus else Plus, (if Abs(x) < 10 then [0] else []) + DigitsOf(Abs(x)))
  }

  function FigureOf(mant: int, exp: int): Syntax {
    var n, d := Numer(mant, exp), Denom(exp);
    if LikeInt(n, d) then IntFigure(Truncated(n, d))
    else if Near(n / d, n, d) then IntFigure(Signed(n < 0, Nearest(Abs(n), d)))
    else if FarOut(n, d) then
      var (k, x) := Leading(Abs(mant), exp);
      MillionthsFigure(mant < 0, k, ExponentScale(x))
    else MillionthsFigure(n < 0, Nearest(Abs(n) * 1_000_000, d), NoScale)
  }

  lemma IntIsFigure(i: int)
    ensures var x := IntFigure(i); IsFigure(x) && FigureText(x) == PrintInt(i)
  {
    DecimalIs(Abs(i));
    hide DigitsOf, Decimal, DigitsText;
    assert Ascii("-") == [MINUS];
  }

  lemma ScaleIs(x: int)
    ensures IsScale(ExponentScale(x)) && ScaleText(ExponentScale(x)) == PrintExponent(x)
  {
    hide *;
    var ds, short := DigitsOf(Abs(x)), Abs(x) < 10;
    DecimalIs(Abs(x));
    ZeroBefore(ds);
    NothingBefore(DigitsText(ds));
    ExponentParts(x);
    ScaleParts(x < 0, if short then [0] + ds else ds);
    if short {
      Shift([LETTER_E, if x < 0 then MINUS else PLUS], [ZERO], Decimal(Abs(x)));
    }
  }

  lemma ExponentParts(x: int)
    ensures ExponentScale(x)
            == Scale(false, if x < 0 then Minus else Plus,
                     if Abs(x) < 10 then [0] + DigitsOf(Abs(x)) else DigitsOf(Abs(x)))
    ensures PrintExponent(x)
            == [LETTER_E, if x < 0 then MINUS else PLUS] + (if Abs(x) < 10 then [ZERO] else []) + Decimal(Abs(x))
    ensures Abs(x) >= 10 ==>
              PrintExponent(x) == [LETTER_E, if x < 0 then MINUS else PLUS] + Decimal(Abs(x))
  {
    hide DigitsOf, Decimal;
    if Abs(x) >= 10 { assert [] + DigitsOf(Abs(x)) == DigitsOf(Abs(x)); }
  }

  lemma ScaleParts(negative: bool, ds: seq<nat>)
    requires AreDigits(ds) && ds != []
    ensures var x := Scale(false, if negative then Minus else Plus, ds);
            IsScale(x) && ScaleText(x) == [LETTER_E, if negative then MINUS else PLUS] + DigitsText(ds)
  {
    hide AreDigits, DigitsText;
    assert Ascii("e") == [LETTER_E] && Ascii("-") == [MINUS] && Ascii("+") == [PLUS];
  }

  lemma ZeroBefore(ds: seq<nat>)
    requires AreDigits(ds)
    ensures AreDigits([0] + ds) && DigitsText([0] + ds) == [ZERO] + DigitsText(ds)
  {
    DigitRead(0);
    hide DigitText;
  }

  lemma MillionthsAreFigure(negative: bool, k: nat, scale: Scale)
    requires IsScale(scale)
    ensures var x := MillionthsFigure(negative, k, scale);
            IsFigure(x) && FigureText(x) == Sign(negative) + Millionths(k) + ScaleText(scale)
  {
    hide *;
    var q, f := k / 1_000_000, k % 1_000_000;
    DecimalIs(q);
    PaddedIs(f, 6);
    assert q > 0 || DigitsOf(q) == [0];
    FigureIs(negative, DigitsOf(q), PaddedOf(f, 6), scale);
    MillionthsParts(negative, k, scale);
    var a, b, c, d := Sign(negative), Decimal(q), [POINT] + Padded(f, 6), ScaleText(scale);
    assert a + b + c + d == a + (b + c) + d;
  }

  lemma MillionthsParts(negative: bool, k: nat, scale: Scale)
    ensures MillionthsFigure(negative, k, scale)
            == Figure(negative, DigitsOf(k / 1_000_000), PaddedOf(k % 1_000_000, 6), scale)
    ensures Millionths(k) == Decimal(k / 1_000_000) + ([POINT] + Padded(k % 1_000_000, 6))
  {
    hide DigitsOf, PaddedOf, Decimal, Padded;
  }

  lemma FigureIs(negative: bool, whole: seq<nat>, fraction: seq<nat>, scale: Scale)
    requires AreDigits(whole) && AreDigits(fraction) && IsScale(scale) && fraction != []
    requires whole != [] && (whole[0] == 0 ==> |whole| == 1)
    ensures var x := Figure(negative, whole, fraction, scale);
            && IsFigure(x)
            && FigureText(x)
               == Sign(negative) + DigitsText(whole) + ([POINT] + DigitsText(fraction)) + ScaleText(scale)
  {
    hide AreDigits, DigitsText, ScaleText, IsScale;
    assert Ascii("-") == [MINUS] && Ascii(".") == [POINT];
  }

  lemma NumberIsFigure(mant: int, exp: int)
    ensures var x := FigureOf(mant, exp); x.Figure? && IsFigure(x) && FigureText(x) == NumberText(mant, exp)
  {
    hide LikeInt, Near, FarOut, Numer, Denom, Truncated, Nearest, Leading, IsFigure, FigureText, PrintInt, Millionths,
      PrintExponent, ScaleText, IsScale, ExponentScale;
    var n, d := Numer(mant, exp), Denom(exp);
    if LikeInt(n, d) {
      IntIsFigure(Truncated(n, d));
    } else if Near(n / d, n, d) {
      IntIsFigure(Signed(n < 0, Nearest(Abs(n), d)));
    } else if FarOut(n, d) {
      var (k, x) := Leading(Abs(mant), exp);
      ScaleIs(x);
      MillionthsAreFigure(mant < 0, k, ExponentScale(x));
    } else {
      var k := Nearest(Abs(n) * 1_000_000, d);
      NoScaleText();
      MillionthsAreFigure(n < 0, k, NoScale);
      assert Sign(n < 0) + Millionths(k) + [] == Sign(n < 0) + Millionths(k);
    }
  }

  lemma NoScaleText()
    ensures IsScale(NoScale) && ScaleText(NoScale) == []
  {
  }

  /** What the printer writes for a value, blanks and all. */
  function SyntaxOf(v: Json, depth: nat, fmt: bool): Syntax
    decreases v, 1
  {
    match v
    case Null => NullWord
    case False => FalseWord
    case True => TrueWord
    case Number(mant, exp) => FigureOf(mant, exp)
    case String(s) => Quoted(LettersOf(s))
    case Array(items) => Listing([], ElementsOf(items, [], depth + 1, fmt))
    case Object(members) => Record(LineEnd(depth, fmt), PairsOf(members, depth, fmt))
  }

  /** A new line and its tabs, if there are any. */
  function LineEnd(depth: nat, fmt: bool): Text { If(fmt, [NEWLINE]) + If(fmt, Tabs(depth)) }

  function ElementsOf(items: seq<Json>, before: Text, depth: nat, fmt: bool): (es: seq<Element>)
    ensures |es| == |items|
    decreases items, 0
  {
    if items == [] then []
    else [Element(before, SyntaxOf(items[0], depth, fmt), [])] + ElementsOf(items[1..], If(fmt, [SPACE]), depth, fmt)
  }

  function PairsOf(members: seq<Member>, depth: nat, fmt: bool): (ps: seq<NamedValue>)
    ensures |ps| == |members|
    decreases members, 0
  {
    if members == [] then []
    else
      [NamedValue(LineEnd(depth + 1, fmt), LettersOf(members[0].name), [], If(fmt, [TAB]),
                  SyntaxOf(members[0].value, depth + 1, fmt), if |members| == 1 then LineEnd(depth, fmt) else [])]
      + PairsOf(members[1..], depth, fmt)
  }

  lemma LineEndWhite(depth: nat, fmt: bool)
    ensures White(LineEnd(depth, fmt)) && White([]) && White(If(fmt, [SPACE])) && White(If(fmt, [TAB]))
  {
  }

  /** The value's tree is in the grammar, its text is what is printed, and its strings are all kept. */
  lemma {:induction false} SyntaxIs(v: Json, depth: nat, fmt: bool)
    ensures var x := SyntaxOf(v, depth, fmt); IsJson(x) && KeptIn(x) && Written(x) == Print(v, depth, fmt)
    decreases v, 1
  {
    match v
    case Null => assert Ascii("null") == NULL_TEXT;
    case False => assert Ascii("false") == FALSE_TEXT;
    case True => assert Ascii("true") == TRUE_TEXT;
    case Number(mant, exp) => NumberIsFigure(mant, exp); hide FigureOf, NumberText, IsFigure, FigureText;
    case String(s) => StringIsQuoted(s); hide AreLetters, AllKept, LettersOf, QuotedText, PrintString;
    case Array(items) => ListingIs(v, depth, fmt);
    case Object(members) => RecordIs(v, depth, fmt);
  }

  lemma {:induction false} ListingIs(v: Json, depth: nat, fmt: bool)
    requires v.Array?
    ensures var x := SyntaxOf(v, depth, fmt); IsJson(x) && KeptIn(x) && Written(x) == Print(v, depth, fmt)
    decreases v, 0
  {
    hide *;
    var items := v.items;
    LineEndWhite(depth, fmt);
    if items != [] { ElementsAre(items, [], depth + 1, fmt); }
    NoItems(depth + 1, fmt);
    ListText(v, depth, fmt);
    ListingIsJson(v, depth, fmt);
    assert [] + PrintItems(items, depth + 1, fmt) == PrintItems(items, depth + 1, fmt);
  }

  lemma ListingIsJson(v: Json, depth: nat, fmt: bool)
    requires v.Array?
    requires v.items != [] ==>
               var es := ElementsOf(v.items, [], depth + 1, fmt);
               (forall i :: 0 <= i < |es| ==> IsElement(es[i])) && ItemsKept(es)
    ensures var x, es := SyntaxOf(v, depth, fmt), ElementsOf(v.items, [], depth + 1, fmt);
            && IsJson(x) && KeptIn(x) && |es| == |v.items|
            && Written(x) == [LBRACKET] + (if es == [] then [] else ElementsText(es)) + [RBRACKET]
  {
    hide ElementsOf, IsElement, ElementsText;
    assert Ascii("[") == [LBRACKET] && Ascii("]") == [RBRACKET];
  }

  lemma NoItems(depth: nat, fmt: bool)
    ensures PrintItems([], depth, fmt) == [] && PrintMembers([], depth, fmt) == []
  {
  }

  lemma ListText(v: Json, depth: nat, fmt: bool)
    requires v.Array?
    ensures Print(v, depth, fmt) == [LBRACKET] + PrintItems(v.items, depth + 1, fmt) + [RBRACKET]
  {
  }

  lemma {:induction false} ElementsAre(items: seq<Json>, before: Text, depth: nat, fmt: bool)
    requires items != [] && White(before)
    ensures var es := ElementsOf(items, before, depth, fmt);
            && (forall i :: 0 <= i < |es| ==> IsElement(es[i])) && ItemsKept(es)
            && ElementsText(es) == before + PrintItems(items, depth, fmt)
    decreases items, 0
  {
    hide *;
    var es, gap := ElementsOf(items, before, depth, fmt), If(fmt, [SPACE]);
    LineEndWhite(depth, fmt);
    SyntaxIs(items[0], depth, fmt);
    ElementsOfStep(items, before, depth, fmt);
    var first := Print(items[0], depth, fmt);
    if |items| > 1 {
      ElementsAre(items[1..], gap, depth, fmt);
      AllElements(es);
      var more := PrintItems(items[1..], depth, fmt);
      ItemsLines(items, depth, fmt);
      ElementsLines(es);
      assert before + first + [] + ([COMMA] + (gap + more)) == before + (first + ([COMMA] + gap) + more);
    } else {
      AllElements(es);
      OneItem(items, depth, fmt);
      OneElement(es);
      assert before + first + [] == before + first;
    }
  }

  lemma ElementsOfStep(items: seq<Json>, before: Text, depth: nat, fmt: bool)
    requires items != [] && White(before) && IsJson(SyntaxOf(items[0], depth, fmt))
    requires KeptIn(SyntaxOf(items[0], depth, fmt))
    ensures var es := ElementsOf(items, before, depth, fmt);
            && |es| == |items| && es[1..] == ElementsOf(items[1..], If(fmt, [SPACE]), depth, fmt)
            && IsElement(es[0]) && KeptIn(es[0].value)
            && ElementText(es[0]) == before + Written(SyntaxOf(items[0], depth, fmt)) + []
  {
    hide SyntaxOf, IsJson, KeptIn, Written;
  }

  lemma AllElements(es: seq<Element>)
    requires es != [] && IsElement(es[0]) && KeptIn(es[0].value)
    requires |es| > 1 ==> (forall i :: 0 <= i < |es[1..]| ==> IsElement(es[1..][i])) && ItemsKept(es[1..])
    ensures (forall i :: 0 <= i < |es| ==> IsElement(es[i])) && ItemsKept(es)
  {
    hide IsElement, KeptIn;
    assert forall i :: 0 < i < |es| ==> es[i] == es[1..][i - 1];
  }

  lemma ItemsLines(items: seq<Json>, depth: nat, fmt: bool)
    requires |items| > 1
    ensures PrintItems(items, depth, fmt)
            == Print(items[0], depth, fmt) + ([COMMA] + If(fmt, [SPACE])) + PrintItems(items[1..], depth, fmt)
  {
    hide Print;
  }

  lemma OneItem(items: seq<Json>, depth: nat, fmt: bool)
    requires |items| == 1
    ensures PrintItems(items, depth, fmt) == Print(items[0], depth, fmt)
  {
    hide Print;
  }

  lemma ElementsLines(es: seq<Element>)
    requires |es| > 1 && (forall i :: 0 <= i < |es| ==> IsElement(es[i]))
    requires forall i :: 0 <= i < |es[1..]| ==> IsElement(es[1..][i])
    ensures ElementsText(es) == ElementText(es[0]) + ([COMMA] + ElementsText(es[1..]))
  {
    hide IsElement, ElementText;
    assert Ascii(",") == [COMMA];
  }

  lemma OneElement(es: seq<Element>)
    requires |es| == 1 && (forall i :: 0 <= i < |es| ==> IsElement(es[i]))
    ensures ElementsText(es) == ElementText(es[0])
  {
    hide IsElement, ElementText;
  }

  lemma {:induction false} RecordIs(v: Json, depth: nat, fmt: bool)
    requires v.Object?
    ensures var x := SyntaxOf(v, depth, fmt); IsJson(x) && KeptIn(x) && Written(x) == Print(v, depth, fmt)
    decreases v, 0
  {
    hide *;
    var members := v.members;
    if members != [] { PairsAre(members, depth, fmt); }
    NoItems(depth + 1, fmt);
    LineEndWhite(depth, fmt);
    RecordText(v, depth, fmt);
    RecordIsJson(v, depth, fmt);
    LineEndIs(depth, fmt);
    var a, b := If(fmt, [NEWLINE]), If(fmt, Tabs(depth));
    assert a + [] + b == a + b;
  }

  lemma LineEndIs(depth: nat, fmt: bool)
    ensures LineEnd(depth, fmt) == If(fmt, [NEWLINE]) + If(fmt, Tabs(depth))
  {
  }

  lemma RecordIsJson(v: Json, depth: nat, fmt: bool)
    requires v.Object? && White(LineEnd(depth, fmt))
    requires v.members != [] ==>
               var ps := PairsOf(v.members, depth, fmt);
               (forall i :: 0 <= i < |ps| ==> IsPair(ps[i])) && MembersKept(ps)
    ensures var x, ps := SyntaxOf(v, depth, fmt), PairsOf(v.members, depth, fmt);
            && IsJson(x) && KeptIn(x) && |ps| == |v.members|
            && Written(x) == [LBRACE] + (if ps == [] then LineEnd(depth, fmt) else PairsText(ps)) + [RBRACE]
  {
    hide PairsOf, IsPair, PairsText, LineEnd, White;
    assert Ascii("{") == [LBRACE] && Ascii("}") == [RBRACE];
  }

  lemma RecordText(v: Json, depth: nat, fmt: bool)
    requires v.Object?
    ensures Print(v, depth, fmt)
            == [LBRACE] + (If(fmt, [NEWLINE]) + PrintMembers(v.members, depth + 1, fmt) + If(fmt, Tabs(depth)))
               + [RBRACE]
  {
    hide PrintMembers, If;
    var a, b, c := If(fmt, [NEWLINE]), PrintMembers(v.members, depth + 1, fmt), If(fmt, Tabs(depth));
    assert [LBRACE] + a + b + c + [RBRACE] == [LBRACE] + (a + b + c) + [RBRACE];
  }

  lemma {:induction false} PairsAre(members: seq<Member>, depth: nat, fmt: bool)
    requires members != []
    ensures var ps := PairsOf(members, depth, fmt);
            && (forall i :: 0 <= i < |ps| ==> IsPair(ps[i])) && MembersKept(ps)
            && PairsText(ps) == If(fmt, [NEWLINE]) + PrintMembers(members, depth + 1, fmt) + If(fmt, Tabs(depth))
    decreases members, 0
  {
    hide *;
    var ps, m := PairsOf(members, depth, fmt), members[0];
    SyntaxIs(m.value, depth + 1, fmt);
    StringIsQuoted(m.name);
    PairsOfStep(members, depth, fmt);
    if |members| > 1 {
      PairsAre(members[1..], depth, fmt);
      AllPairs(ps);
      FirstPair(ps[0], m, depth, fmt, []);
      MembersTextMore(ps, members, depth, fmt);
    } else {
      AllPairs(ps);
      FirstPair(ps[0], m, depth, fmt, LineEnd(depth, fmt));
      MembersTextOne(ps, members, depth, fmt);
    }
  }

  lemma PairsOfStep(members: seq<Member>, depth: nat, fmt: bool)
    requires members != []
    requires AreLetters(LettersOf(members[0].name)) && IsJson(SyntaxOf(members[0].value, depth + 1, fmt))
    requires AllKept(LettersOf(members[0].name)) && KeptIn(SyntaxOf(members[0].value, depth + 1, fmt))
    ensures var ps, m := PairsOf(members, depth, fmt), members[0];
            && |ps| == |members| && ps[1..] == PairsOf(members[1..], depth, fmt)
            && ps[0].before == LineEnd(depth + 1, fmt) && ps[0].name == LettersOf(m.name) && ps[0].colon == []
            && ps[0].gap == If(fmt, [TAB]) && ps[0].value == SyntaxOf(m.value, depth + 1, fmt)
            && ps[0].after == (if |members| == 1 then LineEnd(depth, fmt) else [])
            && IsPair(ps[0]) && AllKept(ps[0].name) && KeptIn(ps[0].value)
  {
    LineEndWhite(depth, fmt);
    LineEndWhite(depth + 1, fmt);
    hide SyntaxOf, IsJson, KeptIn, White, LettersOf, AreLetters, AllKept, LineEnd, If;
  }

  lemma AllPairs(ps: seq<NamedValue>)
    requires ps != [] && IsPair(ps[0]) && AllKept(ps[0].name) && KeptIn(ps[0].value)
    requires |ps| > 1 ==> (forall i :: 0 <= i < |ps[1..]| ==> IsPair(ps[1..][i])) && MembersKept(ps[1..])
    ensures (forall i :: 0 <= i < |ps| ==> IsPair(ps[i])) && MembersKept(ps)
  {
    hide IsPair, AllKept, KeptIn;
    assert forall i :: 0 < i < |ps| ==> ps[i] == ps[1..][i - 1];
  }

  lemma MembersTextOne(ps: seq<NamedValue>, members: seq<Member>, depth: nat, fmt: bool)
    requires |ps| == |members| == 1 && IsPair(ps[0])
    requires PairText(ps[0]) == If(fmt, [NEWLINE]) + PrintMember(members[0], depth + 1, fmt) + LineEnd(depth, fmt)
    ensures forall i :: 0 <= i < |ps| ==> IsPair(ps[i])
    ensures PairsText(ps) == If(fmt, [NEWLINE]) + PrintMembers(members, depth + 1, fmt) + If(fmt, Tabs(depth))
  {
    hide *;
    var line, tabs, text := If(fmt, [NEWLINE]), If(fmt, Tabs(depth)), PrintMember(members[0], depth + 1, fmt);
    OneMember(members, depth + 1, fmt);
    OnePair(ps);
    LineEndIs(depth, fmt);
    assert line + text + (line + tabs) == line + (text + line) + tabs;
  }

  lemma OneMember(members: seq<Member>, depth: nat, fmt: bool)
    requires |members| == 1
    ensures PrintMembers(members, depth, fmt) == PrintMember(members[0], depth, fmt) + If(fmt, [NEWLINE])
  {
    hide PrintMember;
    assert members[1..] == [];
  }

  lemma MembersLines(members: seq<Member>, depth: nat, fmt: bool)
    requires |members| > 1
    ensures PrintMembers(members, depth, fmt)
            == PrintMember(members[0], depth, fmt) + [COMMA] + If(fmt, [NEWLINE])
               + PrintMembers(members[1..], depth, fmt)
  {
    hide PrintMember;
  }

  lemma MembersTextMore(ps: seq<NamedValue>, members: seq<Member>, depth: nat, fmt: bool)
    requires |ps| == |members| > 1 && (forall i :: 0 <= i < |ps| ==> IsPair(ps[i]))
    requires forall i :: 0 <= i < |ps[1..]| ==> IsPair(ps[1..][i])
    requires PairText(ps[0]) == If(fmt, [NEWLINE]) + PrintMember(members[0], depth + 1, fmt) + []
    requires PairsText(ps[1..])
             == If(fmt, [NEWLINE]) + PrintMembers(members[1..], depth + 1, fmt) + If(fmt, Tabs(depth))
    ensures PairsText(ps) == If(fmt, [NEWLINE]) + PrintMembers(members, depth + 1, fmt) + If(fmt, Tabs(depth))
  {
    hide *;
    var line, tabs, text := If(fmt, [NEWLINE]), If(fmt, Tabs(depth)), PrintMember(members[0], depth + 1, fmt);
    var more := PrintMembers(members[1..], depth + 1, fmt);
    MembersLines(members, depth + 1, fmt);
    PairsLines(ps);
    assert line + text + [] + ([COMMA] + (line + more + tabs)) == line + (text + [COMMA] + line + more) + tabs;
  }

  lemma FirstPair(p: NamedValue, m: Member, depth: nat, fmt: bool, after: Text)
    requires IsPair(p)
    requires p.before == LineEnd(depth + 1, fmt) && p.name == LettersOf(m.name) && p.colon == []
    requires p.gap == If(fmt, [TAB]) && p.value == SyntaxOf(m.value, depth + 1, fmt) && p.after == after
    requires QuotedText(p.name) == PrintString(m.name) && Written(p.value) == Print(m.value, depth + 1, fmt)
    ensures PairText(p) == If(fmt, [NEWLINE]) + PrintMember(m, depth + 1, fmt) + after
  {
    hide SyntaxOf, Written, Print, QuotedText, PrintString, Tabs, LettersOf, White, AreLetters, If, IsPair;
    assert Ascii(":") == [COLON];
    hide Ascii;
    var a, b, c, d, e := If(fmt, [NEWLINE]), If(fmt, Tabs(depth + 1)), PrintString(m.name), If(fmt, [TAB]),
                         Print(m.value, depth + 1, fmt);
    assert PairText(p) == (a + b) + c + [] + [COLON] + d + e + after;
    assert PrintMember(m, depth + 1, fmt) == b + c + ([COLON] + d) + e;
    hide *;
    PairRegrouped(a, b, c, [COLON], d, e, after);
  }

  lemma PairRegrouped(a: Text, b: Text, c: Text, d: Text, e: Text, f: Text, g: Text)
    ensures (a + b) + c + [] + d + e + f + g == a + (b + c + (d + e) + f) + g
  {
  }

  /** Both printers write JSON: for any tree, at any depth, formatted or not, the text is one of RFC 8259, and it
      denotes the tree with its numbers as they were written. */
  lemma PrintIsJson(v: Json, depth: nat, fmt: bool)
    ensures var x := SyntaxOf(v, depth, fmt);
            IsJson(x) && Written(x) == Print(v, depth, fmt) && Denotes(x, AsRead(v))
  {
    hide *;
    var x := SyntaxOf(v, depth, fmt);
    SyntaxIs(v, depth, fmt);
    NothingEnds();
    ValueRead(x, []);
    ValueBack(v, depth, fmt, []);
  }

  lemma NothingEnds()
    ensures EndsNumber([])
  {
  }

  // ----- the layout -----

  /** {"a":[true,null],"b":false} */
  function Sample(): Json { Object([Member([97], Array([True, Null])), Member([98], False)]) }

  lemma NameText(c: Char)
    requires 97 <= c <= 98
    ensures PrintString([c]) == [QUOTE, c, QUOTE]
  {
    assert [c][1..] == [] && Escapes([]) == [] && Escaped(c) == [c];
    assert Escapes([c]) == [c] + [];
  }

  lemma ListLayout(depth: nat, fmt: bool)
    ensures Print(Array([True, Null]), depth, fmt)
            == [LBRACKET] + (TRUE_TEXT + ([COMMA] + If(fmt, [SPACE])) + NULL_TEXT) + [RBRACKET]
  {
    var items := [True, Null];
    assert items[1..] == [Null];
    ItemsLines(items, depth + 1, fmt);
    OneItem([Null], depth + 1, fmt);
    hide PrintItems;
  }

  lemma MemberLayout(name: Char, v: Json, depth: nat, fmt: bool)
    requires 97 <= name <= 98
    ensures PrintMember(Member([name], v), depth, fmt)
            == If(fmt, Tabs(depth)) + [QUOTE, name, QUOTE] + ([COLON] + If(fmt, [TAB])) + Print(v, depth, fmt)
  {
    NameText(name);
    hide PrintString, Print, Tabs;
  }

  lemma SampleLayout(depth: nat, fmt: bool)
    ensures Print(Sample(), depth, fmt)
            == [LBRACE] + (If(fmt, [NEWLINE])
               + (PrintMember(Member([97], Array([True, Null])), depth + 1, fmt) + [COMMA] + If(fmt, [NEWLINE])
                  + (PrintMember(Member([98], False), depth + 1, fmt) + If(fmt, [NEWLINE])))
               + If(fmt, Tabs(depth))) + [RBRACE]
  {
    hide *;
    var members := [Member([97], Array([True, Null])), Member([98], False)];
    SampleIs();
    RecordText(Object(members), depth, fmt);
    MembersLines(members, depth + 1, fmt);
    assert members[1..] == [Member([98], False)];
    OneMember(members[1..], depth + 1, fmt);
  }

  lemma SampleIs()
    ensures Sample() == Object([Member([97], Array([True, Null])), Member([98], False)])
  {
  }

  lemma WordLayout(depth: nat, fmt: bool)
    ensures Print(False, depth, fmt) == FALSE_TEXT
  {
  }

  lemma FirstTight()
    ensures PrintMember(Member([97], Array([True, Null])), 2, false) == Ascii("\"a\":[true,null]")
  {
    hide Print, PrintMember;
    MemberLayout(97, Array([True, Null]), 2, false);
    ListLayout(2, false);
  }

  lemma FirstLaid()
    ensures PrintMember(Member([97], Array([True, Null])), 2, true) == Ascii("\t\t\"a\":\t[true, null]")
  {
    hide Print, PrintMember;
    MemberLayout(97, Array([True, Null]), 2, true);
    ListLayout(2, true);
    assert Tabs(2) == [TAB, TAB];
  }

  lemma SecondLine()
    ensures PrintMember(Member([98], False), 2, false) == Ascii("\"b\":false")
    ensures PrintMember(Member([98], False), 2, true) == Ascii("\t\t\"b\":\tfalse")
  {
    hide Print, PrintMember;
    MemberLayout(98, False, 2, false);
    MemberLayout(98, False, 2, true);
    WordLayout(2, false);
    WordLayout(2, true);
    assert Tabs(2) == [TAB, TAB];
  }

  /** An object, as it is printed without format. */
  lemma Tight()
    ensures Print(Sample(), 1, false)
            == Ascii("{") + Ascii("\"a\":[true,null]") + Ascii(",") + Ascii("\"b\":false") + Ascii("}")
  {
    SampleLayout(1, false);
    FirstTight();
    assert If(false, [NEWLINE]) == [] && If(false, Tabs(1)) == [];
    SecondLine();
    assert Ascii("{") == [LBRACE] && Ascii(",") == [COMMA] && Ascii("}") == [RBRACE];
    hide *;
    Bracketed([LBRACE], [], Ascii("\"a\":[true,null]"), [COMMA], [], Ascii("\"b\":false"), [], [], [RBRACE]);
    NothingBefore([COMMA]);
    assert [LBRACE] + [] == [LBRACE] && [COMMA] + [] == [COMMA] && [] + [] + [RBRACE] == [RBRACE];
  }

  /** And with, at depth one: a line for every member, a tab for every level, a tab after the colon, a space after
      a comma. */
  lemma Laid()
    ensures Print(Sample(), 1, true)
            == Ascii("{\n") + Ascii("\t\t\"a\":\t[true, null]") + Ascii(",\n") + Ascii("\t\t\"b\":\tfalse")
               + Ascii("\n\t}")
  {
    SampleLayout(1, true);
    FirstLaid();
    assert If(true, [NEWLINE]) == [NEWLINE] && If(true, Tabs(1)) == Tabs(1);
    SecondLine();
    assert Ascii("{\n") == [LBRACE] + [NEWLINE] && Ascii(",\n") == [COMMA] + [NEWLINE];
    assert Ascii("\n\t}") == [NEWLINE] + [TAB] + [RBRACE] && Tabs(1) == [TAB];
    hide *;
    Bracketed([LBRACE], [NEWLINE], Ascii("\t\t\"a\":\t[true, null]"), [COMMA], [NEWLINE],
              Ascii("\t\t\"b\":\tfalse"), [NEWLINE], [TAB], [RBRACE]);
  }

  lemma Bracketed(a: Text, b: Text, c: Text, d: Text, e: Text, f: Text, g: Text, h: Text, i: Text)
    ensures a + (b + (c + d + e + (f + g)) + h) + i == (a + b) + c + (d + e) + f + (g + h + i)
  {
  }
}
