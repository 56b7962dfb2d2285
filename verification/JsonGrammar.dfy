/** The grammar of RFC 8259 as trees of what may be written, and what it makes of the parser and the printers
    of src/cJSON.c. */
module JsonGrammar {
  import opened Decimals
  import opened JsonText

  // ----- strings: section 7 -----

  /** What a string is made of: a character, a two-character escape, a `u` escape, or two that are a surrogate
      pair; `upper` tells which hex digits are written large. */
  datatype Letter =
    | Raw(c: Char)
    | Short(sign: char)
    | Unit(u: nat, upper: seq<bool>)
    | Pair(high: nat, low: nat, upper: seq<bool>)

  predicate IsLetter(x: Letter) {
    match x
    case Raw(c) => c >= 0x20 && c != '\"' as int && c != '\\' as int
    case Short(sign) => sign in "\"\\/bfnrt"
    case Unit(u, upper) => u < 0x10000 && !(0xD800 <= u <= 0xDFFF) && |upper| == 4
    case Pair(high, low, upper) => 0xD800 <= high <= 0xDBFF && 0xDC00 <= low <= 0xDFFF && |upper| == 8
  }

  function Hex(d: nat, upper: bool): Char
    requires d < 16
  {
    if upper then "0123456789ABCDEF"[d] as int else "0123456789abcdef"[d] as int
  }

  function FourDigits(u: nat, upper: seq<bool>): (t: Text)
    requires u < 0x10000 && |upper| == 4
    ensures |t| == 4
  {
    [Hex(u / 4096, upper[0]), Hex(u / 256 % 16, upper[1]), Hex(u / 16 % 16, upper[2]), Hex(u % 16, upper[3])]
  }

  function LetterText(x: Letter): Text
    requires IsLetter(x)
  {
    match x
    case Raw(c) => [c]
    case Short(sign) => ['\\' as int, sign as int]
    case Unit(u, upper) => Ascii("\\u") + FourDigits(u, upper)
    case Pair(high, low, upper) =>
      Ascii("\\u") + FourDigits(high, upper[..4]) + (Ascii("\\u") + FourDigits(low, upper[4..]))
  }

  predicate AreLetters(xs: seq<Letter>) { forall i :: 0 <= i < |xs| ==> IsLetter(xs[i]) }

  function LettersText(xs: seq<Letter>): Text
    requires AreLetters(xs)
  {
    if xs == [] then [] else LetterText(xs[0]) + LettersText(xs[1..])
  }

  function QuotedText(letters: seq<Letter>): Text
    requires AreLetters(letters)
  {
    Ascii("\"") + LettersText(letters) + Ascii("\"")
  }

  /** The character a two-character escape stands for. */
  function ShortMeans(sign: char): Char
    requires sign in "\"\\/bfnrt"
  {
    if sign == 'b' then 8 else if sign == 'f' then 12 else if sign == 'n' then 10 else if sign == 'r' then 13
    else if sign == 't' then 9 else sign as int
  }

  /** A continuation byte: section 3 of RFC 3629. */
  predicate Tail(s: Text, i: nat) { 0x80 <= At(s, i) <= 0xBF }

  /** The first code point of a UTF-8 text and the text after it; -1 if there is none. */
  function ReadUtf8(s: Text): (r: (int, Text))
    ensures |r.1| <= |s|
  {
    var a, b, c, d := At(s, 0), At(s, 1) - 0x80, At(s, 2) - 0x80, At(s, 3) - 0x80;
    if 0 < a < 0x80 then (a, s[1..])
    else if 0xC2 <= a <= 0xDF && Tail(s, 1) then ((a - 0xC0) * 64 + b, s[2..])
    else if 0xE0 <= a <= 0xEF && Tail(s, 1) && Tail(s, 2) && (a - 0xE0) * 4096 + b * 64 + c >= 0x800 then
      ((a - 0xE0) * 4096 + b * 64 + c, s[3..])
    else if 0xF0 <= a <= 0xF4 && Tail(s, 1) && Tail(s, 2) && Tail(s, 3)
            && (a - 0xF0) * 262144 + b * 4096 + c * 64 + d >= 0x10000 then
      ((a - 0xF0) * 262144 + b * 4096 + c * 64 + d, s[4..])
    else (-1, s)
  }

  /** The code point of a pair: section 2.2 of RFC 2781. */
  function PairCode(high: nat, low: nat): int { 0x10000 + (high - 0xD800) * 0x400 + (low - 0xDC00) }

  /** The bytes `s` are what the string means, in UTF-8. */
  predicate Means(xs: seq<Letter>, s: Text)
    requires AreLetters(xs)
    decreases |xs|
  {
    if xs == [] then s == []
    else
      match xs[0]
      case Raw(c) => s != [] && s[0] == c && Means(xs[1..], s[1..])
      case Short(sign) => s != [] && s[0] == ShortMeans(sign) && Means(xs[1..], s[1..])
      case Unit(u, _) => ReadUtf8(s).0 == u && Means(xs[1..], ReadUtf8(s).1)
      case Pair(high, low, _) => ReadUtf8(s).0 == PairCode(high, low) && Means(xs[1..], ReadUtf8(s).1)
  }

  /** The letters that the parser keeps: all but the escape of NUL and the pairs whose high half has bit 6. */
  predicate Kept(x: Letter) {
    match x
    case Unit(u, _) => u != 0
    case Pair(high, _, _) => high / 64 % 2 == 0
    case _ => true
  }

  predicate AllKept(xs: seq<Letter>) { forall i :: 0 <= i < |xs| ==> Kept(xs[i]) }

  lemma HexRead(d: nat, upper: bool)
    requires d < 16
    ensures IsHex(Hex(d, upper)) && HexValue(Hex(d, upper)) == d
  {
  }

  lemma FourRead(u: nat, upper: seq<bool>, t: Text, i: nat)
    requires u < 0x10000 && |upper| == 4 && i + 4 <= |t| && t[i..i + 4] == FourDigits(u, upper)
    ensures FourHex(t, i) && FourHexValue(t, i) == u
  {
    hide Hex, HexValue, IsHex, FourHexValue, FourHex;
    var a, b, c, d := u / 4096, u / 256 % 16, u / 16 % 16, u % 16;
    var four := t[i..i + 4];
    assert t[i] == four[0] && t[i + 1] == four[1] && t[i + 2] == four[2] && t[i + 3] == four[3];
    HexSum(u);
    hide *;
    HexRead(a, upper[0]);
    HexRead(b, upper[1]);
    HexRead(c, upper[2]);
    HexRead(d, upper[3]);
    FourParts(t, i);
  }

  lemma HexSum(u: nat)
    requires u < 0x10000
    ensures u / 4096 < 16 && ((u / 4096 * 16 + u / 256 % 16) * 16 + u / 16 % 16) * 16 + u % 16 == u
  {
  }

  lemma FourParts(t: Text, i: nat)
    requires i + 4 <= |t| && IsHex(t[i]) && IsHex(t[i + 1]) && IsHex(t[i + 2]) && IsHex(t[i + 3])
    ensures FourHex(t, i)
    ensures FourHexValue(t, i)
            == ((HexValue(t[i]) * 16 + HexValue(t[i + 1])) * 16 + HexValue(t[i + 2])) * 16 + HexValue(t[i + 3])
  {
    hide IsHex, HexValue;
  }

  /** The parser's UTF-8 bytes read back as the code point they were made of. */
  lemma Utf8Read(uc: nat, t: Text)
    requires 0 < uc < 0x110000
    ensures ReadUtf8(Utf8(uc) + t) == (uc, t)
  {
    if uc < 0x800 { Utf8ReadShort(uc, t); } else if uc < 0x10000 { Utf8ReadThree(uc, t); } else { Utf8ReadFour(uc, t); }
  }

  lemma Utf8ReadShort(uc: nat, t: Text)
    requires 0 < uc < 0x800
    ensures ReadUtf8(Utf8(uc) + t) == (uc, t)
  {
    var s := Utf8(uc) + t;
    assert s[|Utf8(uc)|..] == t;
  }

  lemma Utf8ReadThree(uc: nat, t: Text)
    requires 0x800 <= uc < 0x10000
    ensures ReadUtf8(Utf8(uc) + t) == (uc, t)
  {
    ThreeSum(uc);
    var a, b, c := uc / 4096, uc / 64 % 64, uc % 64;
    assert Utf8(uc) == [0xE0 + a, 0x80 + b, 0x80 + c];
    hide *;
    ReadThree(a, b, c, t);
  }

  lemma ThreeSum(uc: nat)
    requires uc < 0x10000
    ensures uc / 4096 < 16 && uc / 4096 * 4096 + uc / 64 % 64 * 64 + uc % 64 == uc
  {
  }

  lemma ReadThree(a: nat, b: nat, c: nat, t: Text)
    requires a < 16 && b < 64 && c < 64 && a * 4096 + b * 64 + c >= 0x800
    ensures ReadUtf8([0xE0 + a, 0x80 + b, 0x80 + c] + t) == (a * 4096 + b * 64 + c, t)
  {
    assert ([0xE0 + a, 0x80 + b, 0x80 + c] + t)[3..] == t;
  }

  lemma Utf8ReadFour(uc: nat, t: Text)
    requires 0x10000 <= uc < 0x110000
    ensures ReadUtf8(Utf8(uc) + t) == (uc, t)
  {
    FourSum(uc);
    var a, b, c, d := uc / 262144, uc / 4096 % 64, uc / 64 % 64, uc % 64;
    assert Utf8(uc) == [0xF0 + a, 0x80 + b, 0x80 + c, 0x80 + d];
    hide *;
    ReadFour(a, b, c, d, t);
  }

  lemma FourSum(uc: nat)
    requires uc < 0x110000
    ensures uc / 262144 < 5 && uc / 262144 * 262144 + uc / 4096 % 64 * 4096 + uc / 64 % 64 * 64 + uc % 64 == uc
  {
  }

  lemma ReadFour(a: nat, b: nat, c: nat, d: nat, t: Text)
    requires a < 5 && b < 64 && c < 64 && d < 64 && a * 262144 + b * 4096 + c * 64 + d >= 0x10000
    ensures ReadUtf8([0xF0 + a, 0x80 + b, 0x80 + c, 0x80 + d] + t) == (a * 262144 + b * 4096 + c * 64 + d, t)
  {
    assert ([0xF0 + a, 0x80 + b, 0x80 + c, 0x80 + d] + t)[4..] == t;
  }

  /** A letter that is not kept. */
  lemma NulLost(s: Text)
    ensures ReadUtf8(s).0 != 0
  {
  }

  /** What the parser makes of one letter. */
  function Heard(x: Letter): Text
    requires IsLetter(x)
  {
    match x
    case Raw(c) => [c]
    case Short(sign) => [ShortMeans(sign)]
    case Unit(u, _) => if u == 0 then [] else Utf8(u)
    case Pair(high, low, _) => Utf8(Joined(high, low))
  }

  lemma UnitHeard(x: Letter, t: Text)
    requires IsLetter(x) && x.Unit?
    ensures Unescape(LetterText(x) + t) == Before(Heard(x), Unescape(t))
  {
    hide FourHex, FourHexValue, FourDigits, Utf8, Unescape, Unicode;
    var s := LetterText(x) + t;
    assert s[2..6] == FourDigits(x.u, x.upper) && s[6..] == t && s[0] == BACKSLASH && s[1] == LETTER_U;
    FourRead(x.u, x.upper, s, 2);
    UnicodeOne(s, x.u);
    EscapeIs(s);
  }

  lemma PairHeard(x: Letter, t: Text)
    requires IsLetter(x) && x.Pair?
    ensures Unescape(LetterText(x) + t) == Before(Heard(x), Unescape(t))
  {
    hide FourHex, FourHexValue, FourDigits, Utf8, Joined, Unescape, Unicode;
    var s := LetterText(x) + t;
    var a, b := FourDigits(x.high, x.upper[..4]), FourDigits(x.low, x.upper[4..]);
    assert s[2..6] == a && s[8..12] == b && s[12..] == t;
    assert s[0] == s[6] == BACKSLASH && s[1] == s[7] == LETTER_U;
    FourRead(x.high, x.upper[..4], s, 2);
    FourRead(x.low, x.upper[4..], s, 8);
    UnicodeTwo(s, x.high, x.low);
    EscapeIs(s);
  }

  lemma EscapeIs(s: Text)
    requires At(s, 0) == BACKSLASH && At(s, 1) == LETTER_U && Unicode(s).Ok?
    ensures Unescape(s) == Before(Unicode(s).value, Unescape(Unicode(s).rest))
  {
    hide Unicode;
  }

  lemma UnicodeOne(s: Text, u: nat)
    requires At(s, 0) == BACKSLASH && At(s, 1) == LETTER_U && FourHex(s, 2) && FourHexValue(s, 2) == u
    requires !(0xD800 <= u <= 0xDFFF)
    ensures Unicode(s) == Ok(if u == 0 then [] else Utf8(u), s[6..])
  {
    hide FourHex, FourHexValue, Utf8;
  }

  lemma UnicodeTwo(s: Text, high: nat, low: nat)
    requires At(s, 0) == BACKSLASH && At(s, 1) == LETTER_U && FourHex(s, 2) && FourHexValue(s, 2) == high
    requires At(s, 6) == BACKSLASH && At(s, 7) == LETTER_U && FourHex(s, 8) && FourHexValue(s, 8) == low
    requires HighSurrogate(high) && LowSurrogate(low)
    ensures Unicode(s) == Ok(Utf8(Joined(high, low)), s[12..])
  {
    hide FourHex, FourHexValue, Utf8, Joined;
  }

  lemma LetterHeard(x: Letter, t: Text)
    requires IsLetter(x)
    ensures Unescape(LetterText(x) + t) == Before(Heard(x), Unescape(t))
  {
    match x
    case Raw(c) => assert (LetterText(x) + t)[1..] == t;
    case Short(sign) => assert (LetterText(x) + t)[2..] == t;
    case Unit(_, _) => UnitHeard(x, t);
    case Pair(_, _, _) => PairHeard(x, t);
  }

  /** And what that means. */
  lemma HeardMeans(xs: seq<Letter>, s: Text)
    requires AreLetters(xs) && xs != []
    ensures Means(xs, Heard(xs[0]) + s) <==> Kept(xs[0]) && Means(xs[1..], s)
  {
    var x := xs[0];
    assert IsLetter(x);
    var v := Heard(x) + s;
    match x
    case Raw(_) => assert v[1..] == s;
    case Short(_) => assert v[1..] == s;
    case Unit(u, _) =>
      if u == 0 { NulLost(v); } else { Utf8Read(u, s); }
      hide ReadUtf8, Utf8;
    case Pair(high, low, _) =>
      JoinedRight(high, low);
      Utf8Read(Joined(high, low), s);
      hide ReadUtf8, Utf8, Joined;
  }

  /** Every string of the grammar is read to its closing quote, and comes out as what it means if and only if it
      has no escaped NUL and no pair whose high half has bit 6. */
  lemma {:induction false} LettersRead(xs: seq<Letter>, t: Text)
    requires AreLetters(xs)
    ensures var r := Unescape(LettersText(xs) + [QUOTE] + t);
            r.Ok? && r.rest == t && (Means(xs, r.value) <==> AllKept(xs))
    decreases |xs|
  {
    hide Unescape, LetterText, Heard, Means, Kept, IsLetter;
    LettersParts(xs);
    if xs == [] {
      QuoteEnds(t);
      assert LettersText(xs) + [QUOTE] + t == [QUOTE] + t;
    } else {
      var rest := LettersText(xs[1..]) + [QUOTE] + t;
      LettersRead(xs[1..], t);
      LetterHeard(xs[0], rest);
      assert LettersText(xs) + [QUOTE] + t == LetterText(xs[0]) + rest;
      var r := Unescape(rest);
      HeardMeans(xs, r.value);
      assert AllKept(xs) <==> Kept(xs[0]) && AllKept(xs[1..]) by {
        assert AllKept(xs[1..]) && Kept(xs[0]) ==> forall i :: 0 < i < |xs| ==> xs[i] == xs[1..][i - 1];
      }
    }
  }

  lemma LettersParts(xs: seq<Letter>)
    requires AreLetters(xs)
    ensures LettersText(xs) == if xs == [] then [] else LetterText(xs[0]) + LettersText(xs[1..])
    ensures xs == [] ==> Means(xs, [])
  {
  }

  /** What a letter takes in the buffer that parse_string makes: one character, five for a `u` escape. */
  function Room(x: Letter): nat { if x.Unit? then 5 else if x.Pair? then 10 else 1 }

  function RoomFor(xs: seq<Letter>): nat { if xs == [] then 0 else Room(xs[0]) + RoomFor(xs[1..]) }

  lemma UnitCounted(u: nat, upper: seq<bool>, t: Text)
    requires u < 0x10000 && |upper| == 4
    ensures Counted(Ascii("\\u") + FourDigits(u, upper) + t) == 5 + Counted(t)
  {
    hide Counted, FourHex, FourDigits;
    var s := Ascii("\\u") + FourDigits(u, upper) + t;
    assert s[2..6] == FourDigits(u, upper) && s[6..] == t && s[0] == BACKSLASH && s[1] == LETTER_U;
    FourRead(u, upper, s, 2);
    HexCounted(s);
  }

  lemma PairCounted(x: Letter, t: Text)
    requires IsLetter(x) && x.Pair?
    ensures Counted(LetterText(x) + t) == 10 + Counted(t)
  {
    hide Counted, FourDigits, Ascii;
    var a, b := Ascii("\\u") + FourDigits(x.high, x.upper[..4]), Ascii("\\u") + FourDigits(x.low, x.upper[4..]);
    UnitCounted(x.high, x.upper[..4], b + t);
    UnitCounted(x.low, x.upper[4..], t);
    assert LetterText(x) == a + b;
    hide *;
    assert a + b + t == a + (b + t);
  }

  lemma LetterCounted(x: Letter, t: Text)
    requires IsLetter(x)
    ensures Counted(LetterText(x) + t) == Room(x) + Counted(t)
  {
    match x
    case Raw(_) => assert (LetterText(x) + t)[1..] == t;
    case Short(_) => assert (LetterText(x) + t)[2..] == t;
    case Unit(u, upper) => UnitCounted(u, upper, t);
    case Pair(_, _, _) => PairCounted(x, t);
  }

  /** The buffer parse_string makes for a string of the grammar. */
  lemma {:induction false} LettersCounted(xs: seq<Letter>, t: Text)
    requires AreLetters(xs)
    ensures Counted(LettersText(xs) + [QUOTE] + t) == RoomFor(xs)
    decreases |xs|
  {
    hide LetterText, Room, IsLetter, Counted;
    LettersParts(xs);
    if xs == [] {
      assert LettersText(xs) + [QUOTE] + t == [QUOTE] + t;
      NoneCounted(t);
    } else {
      var rest := LettersText(xs[1..]) + [QUOTE] + t;
      LettersCounted(xs[1..], t);
      LetterCounted(xs[0], rest);
      assert LettersText(xs) + [QUOTE] + t == LetterText(xs[0]) + rest;
    }
  }

  lemma NoneCounted(t: Text)
    ensures Counted([QUOTE] + t) == 0
  {
  }

  /** One escape, with its digits in any case: the parser gives the code point's UTF-8. */
  lemma UnitRead(u: nat, upper: seq<bool>)
    requires 0 < u < 0x10000 && !(0xD800 <= u <= 0xDFFF) && |upper| == 4
    ensures var r := ParseString(Ascii("\"\\u") + FourDigits(u, upper) + Ascii("\""));
            r.Ok? && r.rest == [] && ReadUtf8(r.value) == (u, [])
  {
    var x := Unit(u, upper);
    var s := Ascii("\"\\u") + FourDigits(u, upper) + Ascii("\"");
    LettersRead([x], []);
    assert LettersText([x]) == LetterText(x);
    assert s[1..] == LettersText([x]) + [QUOTE] + [];
    var r := ParseString(s);
    assert Means([x], r.value) && ReadUtf8(r.value).0 == u && ReadUtf8(r.value).1 == [];
  }

  // ----- numbers: section 6 -----

  datatype Mark = NoMark | Plus | Minus

  datatype Scale = NoScale | Scale(upper: bool, mark: Mark, digits: seq<nat>)

  predicate AreDigits(ds: seq<nat>) { forall i :: 0 <= i < |ds| ==> ds[i] < 10 }

  function DigitText(d: nat): Char
    requires d < 10
  {
    "0123456789"[d] as int
  }

  function DigitsText(ds: seq<nat>): (t: Text)
    requires AreDigits(ds)
    ensures |t| == |ds| && forall i :: 0 <= i < |ds| ==> t[i] == DigitText(ds[i])
  {
    seq(|ds|, i requires 0 <= i < |ds| => DigitText(ds[i]))
  }

  /** In base ten. */
  function Value(ds: seq<nat>): nat {
    if ds == [] then 0 else Value(ds[..|ds| - 1]) * 10 + ds[|ds| - 1]
  }

  // ----- values: sections 3 to 7 -----

  /** What a JSON text is made of; `blank` stands between the brackets of an empty array or object. */
  datatype Syntax =
    | NullWord | FalseWord | TrueWord
    | Figure(negative: bool, whole: seq<nat>, fraction: seq<nat>, scale: Scale)
    | Quoted(letters: seq<Letter>)
    | Listing(blank: Text, elements: seq<Element>)
    | Record(blank: Text, pairs: seq<NamedValue>)

  datatype Element = Element(before: Text, value: Syntax, after: Text)

  datatype NamedValue =
    NamedValue(before: Text, name: seq<Letter>, colon: Text, gap: Text, value: Syntax, after: Text)

  /** Insignificant white space: section 2. */
  predicate White(t: Text) {
    forall i :: 0 <= i < |t| ==> t[i] == ' ' as int || t[i] == '\t' as int || t[i] == '\n' as int || t[i] == '\r' as int
  }

  predicate IsScale(x: Scale) { x.Scale? ==> x.digits != [] && AreDigits(x.digits) }

  predicate IsFigure(x: Syntax)
    requires x.Figure?
  {
    && AreDigits(x.whole) && AreDigits(x.fraction) && IsScale(x.scale)
    && x.whole != [] && (x.whole[0] == 0 ==> |x.whole| == 1)
  }

  /** The texts of the grammar are those of the trees for which this holds. */
  predicate IsJson(x: Syntax)
    decreases x, 0
  {
    match x
    case Figure(_, _, _, _) => IsFigure(x)
    case Quoted(letters) => AreLetters(letters)
    case Listing(blank, elements) =>
      White(blank) && forall i :: 0 <= i < |elements| ==> IsElement(elements[i])
    case Record(blank, pairs) => White(blank) && forall i :: 0 <= i < |pairs| ==> IsPair(pairs[i])
    case _ => true
  }

  predicate IsElement(e: Element)
    decreases e, 1
  {
    White(e.before) && IsJson(e.value) && White(e.after)
  }

  predicate IsPair(p: NamedValue)
    decreases p, 1
  {
    && White(p.before) && AreLetters(p.name) && White(p.colon) && White(p.gap)
    && IsJson(p.value) && White(p.after)
  }

  function MarkText(m: Mark): Text {
    match m
    case NoMark => []
    case Plus => Ascii("+")
    case Minus => Ascii("-")
  }

  function ScaleText(x: Scale): Text
    requires IsScale(x)
  {
    if x.NoScale? then []
    else (if x.upper then Ascii("E") else Ascii("e")) + MarkText(x.mark) + DigitsText(x.digits)
  }

  function FigureText(x: Syntax): Text
    requires x.Figure? && IsFigure(x)
  {
    MarkText(if x.negative then Minus else NoMark) + DigitsText(x.whole)
    + (if x.fraction == [] then [] else Ascii(".") + DigitsText(x.fraction)) + ScaleText(x.scale)
  }

  /** The text of a tree. */
  function Written(x: Syntax): Text
    requires IsJson(x)
    decreases x, 0
  {
    match x
    case NullWord => Ascii("null")
    case FalseWord => Ascii("false")
    case TrueWord => Ascii("true")
    case Figure(_, _, _, _) => FigureText(x)
    case Quoted(letters) => QuotedText(letters)
    case Listing(blank, elements) =>
      Ascii("[") + (if elements == [] then blank else ElementsText(elements)) + Ascii("]")
    case Record(blank, pairs) => Ascii("{") + (if pairs == [] then blank else PairsText(pairs)) + Ascii("}")
  }

  function ElementText(e: Element): Text
    requires IsElement(e)
    decreases e, 1
  {
    e.before + Written(e.value) + e.after
  }

  function ElementsText(es: seq<Element>): Text
    requires es != [] && forall i :: 0 <= i < |es| ==> IsElement(es[i])
    decreases es, 2
  {
    ElementText(es[0]) + if |es| == 1 then [] else Ascii(",") + ElementsText(es[1..])
  }

  function PairText(p: NamedValue): Text
    requires IsPair(p)
    decreases p, 1
  {
    p.before + QuotedText(p.name) + p.colon + Ascii(":") + p.gap + Written(p.value) + p.after
  }

  function PairsText(ps: seq<NamedValue>): Text
    requires ps != [] && forall i :: 0 <= i < |ps| ==> IsPair(ps[i])
    decreases ps, 2
  {
    PairText(ps[0]) + if |ps| == 1 then [] else Ascii(",") + PairsText(ps[1..])
  }

  /** What the tree denotes: a number is its digits, with the point moved back over the fraction. */
  predicate Denotes(x: Syntax, v: Json)
    requires IsJson(x)
    decreases x, 0
  {
    match x
    case NullWord => v.Null?
    case FalseWord => v.False?
    case TrueWord => v.True?
    case Figure(negative, whole, fraction, scale) =>
      && v.Number? && v.mant == (if negative then -(Value(whole + fraction) as int) else Value(whole + fraction))
      && v.exp == (if scale.NoScale? then 0 else if scale.mark.Minus? then -(Value(scale.digits) as int)
                   else Value(scale.digits)) - |fraction|
    case Quoted(letters) => v.String? && Means(letters, v.s)
    case Listing(_, elements) =>
      && v.Array? && |v.items| == |elements|
      && forall i :: 0 <= i < |elements| ==> IsElement(elements[i]) && ItemDenoted(elements[i], v.items[i])
    case Record(_, pairs) =>
      && v.Object? && |v.members| == |pairs|
      && forall i :: 0 <= i < |pairs| ==>
           IsPair(pairs[i]) && MemberDenoted(pairs[i], v.members[i])
  }

  predicate ItemDenoted(e: Element, v: Json)
    requires IsElement(e)
    decreases e, 1
  {
    Denotes(e.value, v)
  }

  predicate MemberDenoted(p: NamedValue, m: Member)
    requires IsPair(p)
    decreases p, 1
  {
    Means(p.name, m.name) && Denotes(p.value, m.value)
  }

  /** All its strings are kept. */
  predicate KeptIn(x: Syntax)
    decreases x, 0
  {
    match x
    case Quoted(letters) => AllKept(letters)
    case Listing(_, elements) => forall i :: 0 <= i < |elements| ==> KeptIn(elements[i].value)
    case Record(_, pairs) => forall i :: 0 <= i < |pairs| ==> AllKept(pairs[i].name) && KeptIn(pairs[i].value)
    case _ => true
  }

  // ----- numbers are read -----

  /** Digits read on from a number. */
  function ReadOn(n: nat, ds: seq<nat>): nat {
    if ds == [] then n else ReadOn(n, ds[..|ds| - 1]) * 10 + ds[|ds| - 1]
  }

  lemma {:induction false} ReadOnValue(ds: seq<nat>, es: seq<nat>)
    ensures ReadOn(Value(ds), es) == Value(ds + es)
    decreases |es|
  {
    if es == [] {
      assert ds + es == ds;
    } else {
      assert (ds + es)[..|ds + es| - 1] == ds + es[..|es| - 1];
      ReadOnValue(ds, es[..|es| - 1]);
    }
  }

  lemma DigitRead(d: nat)
    requires d < 10
    ensures DigitText(d) == 48 + d
  {
  }

  lemma {:induction false} DigitsRead(n: nat, ds: seq<nat>, t: Text)
    requires AreDigits(ds)
    ensures Digits(DigitsText(ds) + t, n) == Digits(t, ReadOn(n, ds))
    decreases |ds|
  {
    hide DigitText;
    if ds == [] {
      assert DigitsText(ds) + t == t;
    } else {
      var init, last := ds[..|ds| - 1], ds[|ds| - 1];
      var one := [DigitText(last)];
      DigitsRead(n, init, one + t);
      assert DigitsText(ds) + t == DigitsText(init) + (one + t);
      DigitRead(last);
      assert (one + t)[1..] == t;
    }
  }

  lemma StopsDigits(t: Text, n: nat)
    requires !IsDigit(At(t, 0))
    ensures Digits(t, n) == (n, t)
  {
  }

  /** Digits up to something else. */
  lemma AllRead(ds: seq<nat>, t: Text)
    requires AreDigits(ds) && !IsDigit(At(t, 0))
    ensures Digits(DigitsText(ds) + t, 0) == (Value(ds), t)
  {
    DigitsRead(0, ds, t);
    assert Value([]) == 0 && [] + ds == ds;
    ReadOnValue([], ds);
    StopsDigits(t, Value(ds));
    hide *;
  }

  lemma FirstDigit(ds: seq<nat>, t: Text)
    requires AreDigits(ds) && ds != []
    ensures At(DigitsText(ds) + t, 0) == 48 + ds[0]
  {
    DigitRead(ds[0]);
    hide DigitText;
  }

  /** Past the whole part, which has no zero in front unless it is one. */
  lemma WholePart(ds: seq<nat>, f: Text)
    requires AreDigits(ds) && ds != [] && (ds[0] == 0 ==> |ds| == 1) && !IsDigit(At(f, 0))
    ensures var t := DigitsText(ds) + f;
            var t2 := if At(t, 0) == ZERO then t[1..] else t;
            && IsDigit(At(t, 0))
            && (if 49 <= At(t2, 0) <= 57 then Digits(t2, 0) else (0, t2)) == (Value(ds), f)
  {
    FirstDigit(ds, f);
    AllRead(ds, f);
    if ds[0] == 0 {
      hide Digits, DigitText;
      assert (DigitsText(ds) + f)[1..] == f;
      assert ds[..|ds| - 1] == [] && Value([]) == 0 && Value(ds) == 0;
    } else {
      hide Digits, DigitsText, Value;
    }
  }

  /** The exponent that is written. */
  function ScaleValue(x: Scale): int {
    if x.NoScale? then 0 else Signed(x.mark.Minus?, Value(x.digits))
  }

  lemma ScaleRead(x: Scale, t: Text)
    requires IsScale(x) && EndsNumber(t)
    ensures Exponent(ScaleText(x) + t) == (ScaleValue(x), t) && !IsDigit(At(ScaleText(x) + t, 0))
  {
    if x.NoScale? {
      assert ScaleText(x) + t == t;
    } else {
      var d := DigitsText(x.digits) + t;
      AllRead(x.digits, t);
      FirstDigit(x.digits, t);
      ScaleShape(x, t);
      ExponentIs(ScaleText(x) + t, x.mark, d, Value(x.digits), t);
    }
  }

  lemma ScaleShape(x: Scale, t: Text)
    requires IsScale(x) && x.Scale?
    ensures var s, d := ScaleText(x) + t, DigitsText(x.digits) + t;
            && (At(s, 0) == LETTER_E || At(s, 0) == 69)
            && (if x.mark.NoMark? then s[1..] == d
                else At(s, 1) == (if x.mark.Plus? then PLUS else MINUS) && s[2..] == d)
  {
    hide DigitsText;
    var e, ds: Text := if x.upper then Ascii("E") else Ascii("e"), DigitsText(x.digits);
    assert e == [if x.upper then 69 else LETTER_E];
    assert Ascii("+") == [PLUS] && Ascii("-") == [MINUS];
    if x.mark.NoMark? {
      assert ScaleText(x) + t == e + (ds + t);
    } else {
      var sign: Char := if x.mark.Plus? then PLUS else MINUS;
      assert ScaleText(x) + t == e + [sign] + (ds + t);
    }
  }

  lemma ExponentIs(s: Text, mark: Mark, d: Text, n: nat, t: Text)
    requires At(s, 0) == LETTER_E || At(s, 0) == 69
    requires if mark.NoMark? then s[1..] == d && IsDigit(At(d, 0))
             else At(s, 1) == (if mark.Plus? then PLUS else MINUS) && s[2..] == d
    requires Digits(d, 0) == (n, t)
    ensures Exponent(s) == (Signed(mark.Minus?, n), t)
  {
    hide Digits;
    if mark.NoMark? { assert At(s, 1) == At(d, 0); }
  }

  /** A fraction, or none. */
  lemma FractionPart(whole: seq<nat>, fraction: seq<nat>, g: Text)
    requires AreDigits(fraction) && !IsDigit(At(g, 0)) && !(At(g, 0) == POINT && IsDigit(At(g, 1)))
    ensures var f := (if fraction == [] then [] else Ascii(".") + DigitsText(fraction)) + g;
            var point := At(f, 0) == POINT && IsDigit(At(f, 1));
            && !IsDigit(At(f, 0))
            && (if point then Digits(f[1..], Value(whole)) else (Value(whole), f)) == (Value(whole + fraction), g)
            && (if point then |g| - (|f| - 1) else 0) == -|fraction|
  {
    var f := (if fraction == [] then [] else Ascii(".") + DigitsText(fraction)) + g;
    if fraction == [] {
      assert f == g && whole + fraction == whole;
    } else {
      assert f[1..] == DigitsText(fraction) + g;
      DigitRead(fraction[0]);
      assert f[1] == DigitText(fraction[0]);
      hide DigitText;
      DigitsRead(Value(whole), fraction, g);
      ReadOnValue(whole, fraction);
      StopsDigits(g, Value(whole + fraction));
    }
  }

  /** ReadUnsigned, once its parts are known. */
  lemma UnsignedIs(u: Text, q: nat, f: Text, k: nat, g: Text, scale: int, e: int, t: Text)
    requires var t2 := if At(u, 0) == ZERO then u[1..] else u;
             (if 49 <= At(t2, 0) <= 57 then Digits(t2, 0) else (0, t2)) == (q, f)
    requires var point := At(f, 0) == POINT && IsDigit(At(f, 1));
             && (if point then Digits(f[1..], q) else (q, f)) == (k, g)
             && (if point then |g| - (|f| - 1) else 0) == scale
    requires Exponent(g) == (e, t)
    ensures ReadUnsigned(u) == (k, scale + e, t)
  {
    hide Digits, Exponent;
  }

  /** Every number of the grammar is read exactly. */
  lemma FigureRead(x: Syntax, t: Text)
    requires x.Figure? && IsFigure(x) && EndsNumber(t)
    ensures var s := FigureText(x) + t;
            && (At(s, 0) == MINUS || IsDigit(At(s, 0)))
            && ReadNumber(s) == (Signed(x.negative, Value(x.whole + x.fraction)), ScaleValue(x.scale) - |x.fraction|, t)
  {
    hide Digits, Exponent, ReadNumber, ReadUnsigned, Value, ScaleValue, ScaleText, DigitText;
    var g := ScaleText(x.scale) + t;
    var f := (if x.fraction == [] then [] else Ascii(".") + DigitsText(x.fraction)) + g;
    var u := DigitsText(x.whole) + f;
    ScaleRead(x.scale, t);
    ScalePoint(x.scale, t);
    FractionPart(x.whole, x.fraction, g);
    WholePart(x.whole, f);
    UnsignedIs(u, Value(x.whole), f, Value(x.whole + x.fraction), g, -|x.fraction|, ScaleValue(x.scale), t);
    SignRead(x.negative, u, Value(x.whole + x.fraction), ScaleValue(x.scale) - |x.fraction|, t);
    FigureShape(x, t);
  }

  lemma ScalePoint(x: Scale, t: Text)
    requires IsScale(x) && EndsNumber(t)
    ensures var g := ScaleText(x) + t; !(At(g, 0) == POINT && IsDigit(At(g, 1)))
  {
  }

  lemma SignRead(negative: bool, u: Text, m: nat, e: int, t: Text)
    requires u != [] && IsDigit(u[0]) && ReadUnsigned(u) == (m, e, t)
    ensures var s := MarkText(if negative then Minus else NoMark) + u;
            && (At(s, 0) == MINUS || IsDigit(At(s, 0))) && ReadNumber(s) == (Signed(negative, m), e, t)
  {
    hide ReadUnsigned;
    var s := MarkText(if negative then Minus else NoMark) + u;
    if negative { assert s[1..] == u; } else { assert s == u; }
  }

  lemma FigureShape(x: Syntax, t: Text)
    requires x.Figure? && IsFigure(x)
    ensures var f := (if x.fraction == [] then [] else Ascii(".") + DigitsText(x.fraction)) + (ScaleText(x.scale) + t);
            FigureText(x) + t == MarkText(if x.negative then Minus else NoMark) + (DigitsText(x.whole) + f)
  {
    hide ScaleText, MarkText;
    var a, b := MarkText(if x.negative then Minus else NoMark), DigitsText(x.whole);
    var c, d := if x.fraction == [] then [] else Ascii(".") + DigitsText(x.fraction), ScaleText(x.scale);
    assert a + b + c + d + t == a + (b + (c + (d + t)));
  }

  // ----- the parser reads every text of the grammar -----

  predicate ItemsDenoted(es: seq<Element>, vs: seq<Json>)
    requires forall i :: 0 <= i < |es| ==> IsElement(es[i])
  {
    |vs| == |es| && forall i :: 0 <= i < |es| ==> IsElement(es[i]) && ItemDenoted(es[i], vs[i])
  }

  predicate MembersDenoted(ps: seq<NamedValue>, ms: seq<Member>)
    requires forall i :: 0 <= i < |ps| ==> IsPair(ps[i])
  {
    |ms| == |ps| && forall i :: 0 <= i < |ps| ==> IsPair(ps[i]) && MemberDenoted(ps[i], ms[i])
  }

  predicate ItemsKept(es: seq<Element>) { forall i :: 0 <= i < |es| ==> KeptIn(es[i].value) }

  predicate MembersKept(ps: seq<NamedValue>) {
    forall i :: 0 <= i < |ps| ==> AllKept(ps[i].name) && KeptIn(ps[i].value)
  }

  lemma ItemsDenotedStep(es: seq<Element>, v: Json, vs: seq<Json>)
    requires es != [] && forall i :: 0 <= i < |es| ==> IsElement(es[i])
    ensures IsElement(es[0]) && forall i :: 0 <= i < |es[1..]| ==> IsElement(es[1..][i])
    ensures ItemsDenoted(es, [v] + vs) <==> Denotes(es[0].value, v) && ItemsDenoted(es[1..], vs)
  {
    var all, rest := [v] + vs, es[1..];
    assert IsElement(es[0]) && (Denotes(es[0].value, v) <==> ItemDenoted(es[0], v));
    hide Denotes, IsElement, ItemDenoted;
    assert forall i :: 0 <= i < |rest| ==> rest[i] == es[i + 1];
    assert forall i :: 0 <= i < |vs| ==> vs[i] == all[i + 1];
    if ItemDenoted(es[0], v) && ItemsDenoted(rest, vs) {
      forall i | 0 <= i < |es| ensures ItemDenoted(es[i], all[i]) {
        if i > 0 { assert es[i] == rest[i - 1] && all[i] == vs[i - 1]; }
      }
    }
  }

  lemma ItemsKeptStep(es: seq<Element>)
    requires es != []
    ensures ItemsKept(es) <==> KeptIn(es[0].value) && ItemsKept(es[1..])
  {
    hide KeptIn;
    assert forall i :: 0 <= i < |es[1..]| ==> es[1..][i] == es[i + 1];
    assert forall i :: 0 < i < |es| ==> es[i] == es[1..][i - 1];
  }

  lemma MembersDenotedStep(ps: seq<NamedValue>, m: Member, ms: seq<Member>)
    requires ps != [] && forall i :: 0 <= i < |ps| ==> IsPair(ps[i])
    ensures IsPair(ps[0]) && forall i :: 0 <= i < |ps[1..]| ==> IsPair(ps[1..][i])
    ensures MembersDenoted(ps, [m] + ms) <==> MemberDenoted(ps[0], m) && MembersDenoted(ps[1..], ms)
  {
    var all, rest := [m] + ms, ps[1..];
    assert IsPair(ps[0]);
    hide IsPair, MemberDenoted;
    assert forall i :: 0 <= i < |rest| ==> rest[i] == ps[i + 1];
    assert forall i :: 0 <= i < |ms| ==> ms[i] == all[i + 1];
    if MemberDenoted(ps[0], m) && MembersDenoted(rest, ms) {
      forall i | 0 <= i < |ps| ensures MemberDenoted(ps[i], all[i]) {
        if i > 0 { assert ps[i] == rest[i - 1] && all[i] == ms[i - 1]; }
      }
    }
  }

  lemma MembersKeptStep(ps: seq<NamedValue>)
    requires ps != []
    ensures MembersKept(ps) <==> AllKept(ps[0].name) && KeptIn(ps[0].value) && MembersKept(ps[1..])
  {
    hide KeptIn, AllKept;
    assert forall i :: 0 <= i < |ps[1..]| ==> ps[1..][i] == ps[i + 1];
    assert forall i :: 0 < i < |ps| ==> ps[i] == ps[1..][i - 1];
  }

  lemma WhiteSkipped(w: Text, t: Text)
    requires White(w)
    ensures Skip(w + t) == Skip(t)
  {
    SkipBlank(w, t);
  }

  /** What stands after a value: white space and one of the three signs. */
  predicate Follows(t: Text) { At(t, 0) == COMMA || At(t, 0) == RBRACKET || At(t, 0) == RBRACE }

  lemma WhiteEnds(w: Text, t: Text)
    requires White(w) && Follows(t)
    ensures EndsNumber(w + t) && Skip(w + t) == t
  {
    WhiteSkipped(w, t);
    if w == [] { assert w + t == t; }
  }

  lemma WrittenStart(x: Syntax)
    requires IsJson(x)
    ensures var p := Written(x); p != [] && p[0] > SPACE && p[0] != RBRACKET && p[0] != RBRACE
  {
    if x.Figure? {
      FigureRead(x, []);
      assert FigureText(x) + [] == FigureText(x);
      hide FigureText;
    }
  }

  lemma {:induction false} ValueRead(x: Syntax, t: Text)
    requires IsJson(x) && (x.Figure? ==> EndsNumber(t))
    ensures var r := ParseValue(Written(x) + t); r.Ok? && r.rest == t && (Denotes(x, r.value) <==> KeptIn(x))
    decreases x, 1
  {
    match x
    case NullWord => assert Ascii("null") == NULL_TEXT; WordBack(Null, NULL_TEXT, t);
    case FalseWord => assert Ascii("false") == FALSE_TEXT; WordBack(False, FALSE_TEXT, t);
    case TrueWord => assert Ascii("true") == TRUE_TEXT; WordBack(True, TRUE_TEXT, t);
    case Figure(_, _, _, _) => FigureValue(x, t);
    case Quoted(_) => QuotedValue(x, t);
    case Listing(_, _) => ListingValue(x, t);
    case Record(_, _) => RecordValue(x, t);
  }

  lemma FigureValue(x: Syntax, t: Text)
    requires IsJson(x) && x.Figure? && EndsNumber(t)
    ensures var r := ParseValue(Written(x) + t); r.Ok? && r.rest == t && Denotes(x, r.value) && KeptIn(x)
  {
    FigureRead(x, t);
    hide ReadNumber, FigureText, Value, EndsNumber;
    var s := Written(x) + t;
    NoWord(s);
    ParseNumberIs(s);
    hide ParseNumber;
  }

  /** A string of the grammar, from quote to quote. */
  lemma QuotedRead(letters: seq<Letter>, t: Text)
    requires AreLetters(letters)
    ensures var r := ParseString(QuotedText(letters) + t);
            r.Ok? && r.rest == t && (Means(letters, r.value) <==> AllKept(letters))
  {
    hide *;
    LettersRead(letters, t);
    QuotedShape(letters, t);
    StringIs(QuotedText(letters) + t, LettersText(letters) + [QUOTE] + t);
  }

  lemma QuotedShape(letters: seq<Letter>, t: Text)
    requires AreLetters(letters)
    ensures QuotedText(letters) + t == [QUOTE] + (LettersText(letters) + [QUOTE] + t)
  {
    hide LettersText, AreLetters;
    assert Ascii("\"") == [QUOTE];
    hide Ascii;
  }

  lemma StringIs(s: Text, t: Text)
    requires s == [QUOTE] + t
    ensures ParseString(s) == Unescape(t)
  {
    assert s[1..] == t;
    hide Unescape;
  }

  lemma QuotedValue(x: Syntax, t: Text)
    requires IsJson(x) && x.Quoted?
    ensures var r := ParseValue(Written(x) + t); r.Ok? && r.rest == t && (Denotes(x, r.value) <==> KeptIn(x))
  {
    QuotedRead(x.letters, t);
    hide ParseString, LettersText, Means, AllKept;
    assert Written(x) == QuotedText(x.letters);
    NoWord(Written(x) + t);
  }

  lemma {:induction false} ListingValue(x: Syntax, t: Text)
    requires IsJson(x) && x.Listing?
    ensures var r := ParseValue(Written(x) + t); r.Ok? && r.rest == t && (Denotes(x, r.value) <==> KeptIn(x))
    decreases x, 0
  {
    hide *;
    var s, es, close := Written(x) + t, x.elements, [RBRACKET] + t;
    ListingShape(x, t);
    SkipBracket(t);
    if es == [] {
      WhiteSkipped(x.blank, close);
      assert close[1..] == t;
      ArrayText(s, close, [], t);
      ListingDenotes(x, []);
    } else {
      ElementsRead(es, t);
      ElementsStart(es, close);
      var w := ElementsText(es) + close;
      SkipTwice(w);
      ItemsSkip(Skip(w), w);
      var vs := ParseItems(w).value;
      ArrayText(s, Skip(w), vs, t);
      ListingDenotes(x, vs);
      ItemsNotEmpty(w);
    }
  }

  lemma ItemsNotEmpty(w: Text)
    requires ParseItems(w).Ok?
    ensures ParseItems(w).value != []
  {
  }

  lemma ListingShape(x: Syntax, t: Text)
    requires IsJson(x) && x.Listing?
    ensures var s := Written(x) + t;
            && White(x.blank) && (forall i :: 0 <= i < |x.elements| ==> IsElement(x.elements[i]))
            && At(s, 0) == LBRACKET
            && s[1..] == (if x.elements == [] then x.blank else ElementsText(x.elements)) + ([RBRACKET] + t)
  {
    hide ElementsText, IsElement;
  }

  lemma ListingDenotes(x: Syntax, vs: seq<Json>)
    requires IsJson(x) && x.Listing?
    ensures (forall i :: 0 <= i < |x.elements| ==> IsElement(x.elements[i]))
    ensures Denotes(x, Array(vs)) <==> ItemsDenoted(x.elements, vs)
    ensures KeptIn(x) <==> ItemsKept(x.elements)
    ensures x.elements == [] ==> ItemsDenoted(x.elements, []) && ItemsKept(x.elements)
  {
    hide IsElement;
  }

  /** The first character of a list's texts. */
  lemma ElementsStart(es: seq<Element>, t: Text)
    requires es != [] && forall i :: 0 <= i < |es| ==> IsElement(es[i])
    ensures At(Skip(ElementsText(es) + t), 0) != RBRACKET
  {
    hide IsJson, Written, Skip;
    var e, tail := es[0], (if |es| == 1 then [] else [COMMA] + ElementsText(es[1..])) + t;
    WrittenStart(e.value);
    ElementsShape(es, t);
    WhiteSkipped(e.before, Written(e.value) + (e.after + tail));
    SkipNone(Written(e.value), e.after + tail);
  }

  lemma ElementsShape(es: seq<Element>, t: Text)
    requires es != [] && forall i :: 0 <= i < |es| ==> IsElement(es[i])
    ensures var e, tail := es[0], (if |es| == 1 then [] else [COMMA] + ElementsText(es[1..])) + t;
            && White(e.before) && White(e.after) && IsJson(e.value)
            && ElementsText(es) + t == e.before + (Written(e.value) + (e.after + tail))
  {
    hide IsJson, Written;
    var e, more := es[0], if |es| == 1 then [] else [COMMA] + ElementsText(es[1..]);
    assert IsElement(es[0]);
    assert Ascii(",") == [COMMA];
    hide Ascii, White;
    assert ElementsText(es) == e.before + Written(e.value) + e.after + more;
    hide *;
    Reassociate(e.before, Written(e.value), e.after, more, t);
  }

  lemma Reassociate(a: Text, b: Text, c: Text, d: Text, t: Text)
    ensures a + b + c + d + t == a + (b + (c + (d + t)))
  {
  }

  lemma {:induction false} ElementsRead(es: seq<Element>, t: Text)
    requires es != [] && forall i :: 0 <= i < |es| ==> IsElement(es[i])
    ensures var r := ParseItems(ElementsText(es) + ([RBRACKET] + t));
            r.Ok? && r.rest == t && (ItemsDenoted(es, r.value) <==> ItemsKept(es))
    decreases es, 0
  {
    hide *;
    var e, close := es[0], [RBRACKET] + t;
    var tail := (if |es| == 1 then [] else [COMMA] + ElementsText(es[1..])) + close;
    var s, after := ElementsText(es) + close, e.after + tail;
    ElementsShape(es, close);
    WrittenStart(e.value);
    WhiteSkipped(e.before, Written(e.value) + after);
    SkipNone(Written(e.value), after);
    TailFollows(if |es| == 1 then [] else [COMMA] + ElementsText(es[1..]), close, tail);
    WhiteEnds(e.after, tail);
    ValueRead(e.value, after);
    ItemsKeptStep(es);
    var v := ParseValue(Written(e.value) + after).value;
    if |es| == 1 {
      assert tail == close && es[1..] == [];
      ItemsLast(s, v, after, t);
      ItemsDenotedStep(es, v, []);
      NoneDenoted();
      assert [v] + [] == [v];
    } else {
      var u := ElementsText(es[1..]) + close;
      assert tail == [COMMA] + u;
      ElementsRead(es[1..], t);
      ItemsMore(s, v, after, u, ParseItems(u).value, t);
      ItemsDenotedStep(es, v, ParseItems(u).value);
    }
  }

  lemma NoneDenoted()
    ensures ItemsDenoted([], []) && ItemsKept([]) && MembersDenoted([], []) && MembersKept([])
  {
  }

  lemma TailFollows(more: Text, close: Text, tail: Text)
    requires (more == [] || more[0] == COMMA) && close != [] && (close[0] == RBRACKET || close[0] == RBRACE)
    requires tail == more + close
    ensures Follows(tail)
  {
  }

  lemma {:induction false} RecordValue(x: Syntax, t: Text)
    requires IsJson(x) && x.Record?
    ensures var r := ParseValue(Written(x) + t); r.Ok? && r.rest == t && (Denotes(x, r.value) <==> KeptIn(x))
    decreases x, 0
  {
    hide *;
    var s, ps, close := Written(x) + t, x.pairs, [RBRACE] + t;
    RecordShape(x, t);
    BraceStops(t);
    if ps == [] {
      WhiteSkipped(x.blank, close);
      ObjectText(s, close, [], t);
      RecordDenotes(x, []);
    } else {
      PairsRead(ps, t);
      PairsStart(ps, close);
      var w := PairsText(ps) + close;
      SkipTwice(w);
      MembersSkip(Skip(w), w);
      var ms := ParseMembers(w).value;
      ObjectText(s, Skip(w), ms, t);
      RecordDenotes(x, ms);
      MembersNotEmpty(w);
    }
  }

  lemma BraceStops(t: Text)
    ensures Skip([RBRACE] + t) == [RBRACE] + t && ([RBRACE] + t)[1..] == t
  {
  }

  lemma MembersNotEmpty(w: Text)
    requires ParseMembers(w).Ok?
    ensures ParseMembers(w).value != []
  {
  }

  lemma RecordShape(x: Syntax, t: Text)
    requires IsJson(x) && x.Record?
    ensures var s := Written(x) + t;
            && White(x.blank) && (forall i :: 0 <= i < |x.pairs| ==> IsPair(x.pairs[i]))
            && At(s, 0) == LBRACE
            && s[1..] == (if x.pairs == [] then x.blank else PairsText(x.pairs)) + ([RBRACE] + t)
  {
    hide PairsText, IsPair;
  }

  lemma RecordDenotes(x: Syntax, ms: seq<Member>)
    requires IsJson(x) && x.Record?
    ensures (forall i :: 0 <= i < |x.pairs| ==> IsPair(x.pairs[i]))
    ensures Denotes(x, Object(ms)) <==> MembersDenoted(x.pairs, ms)
    ensures KeptIn(x) <==> MembersKept(x.pairs)
    ensures x.pairs == [] ==> MembersDenoted(x.pairs, []) && MembersKept(x.pairs)
  {
    hide IsPair;
  }

  lemma PairsStart(ps: seq<NamedValue>, t: Text)
    requires ps != [] && forall i :: 0 <= i < |ps| ==> IsPair(ps[i])
    ensures At(Skip(PairsText(ps) + t), 0) != RBRACE
  {
    hide IsJson, Written, Skip, QuotedText;
    var p, tail := ps[0], (if |ps| == 1 then [] else [COMMA] + PairsText(ps[1..])) + t;
    PairsShape(ps, t);
    QuotedStart(p.name);
    var rest := p.colon + ([COLON] + (p.gap + (Written(p.value) + (p.after + tail))));
    WhiteSkipped(p.before, QuotedText(p.name) + rest);
    SkipNone(QuotedText(p.name), rest);
  }

  lemma QuotedStart(letters: seq<Letter>)
    requires AreLetters(letters)
    ensures QuotedText(letters) != [] && QuotedText(letters)[0] == QUOTE > SPACE && QUOTE != RBRACE
  {
    hide LettersText;
  }

  lemma OnePair(ps: seq<NamedValue>)
    requires |ps| == 1 && (forall i :: 0 <= i < |ps| ==> IsPair(ps[i]))
    ensures PairsText(ps) == PairText(ps[0])
  {
    hide IsPair, PairText;
  }

  lemma PairsLines(ps: seq<NamedValue>)
    requires |ps| > 1 && (forall i :: 0 <= i < |ps| ==> IsPair(ps[i]))
    requires forall i :: 0 <= i < |ps[1..]| ==> IsPair(ps[1..][i])
    ensures PairsText(ps) == PairText(ps[0]) + ([COMMA] + PairsText(ps[1..]))
  {
    hide IsPair, PairText;
    assert Ascii(",") == [COMMA];
  }

  lemma PairsShape(ps: seq<NamedValue>, t: Text)
    requires ps != [] && forall i :: 0 <= i < |ps| ==> IsPair(ps[i])
    ensures var p, tail := ps[0], (if |ps| == 1 then [] else [COMMA] + PairsText(ps[1..])) + t;
            && IsPair(p) && White(p.before) && White(p.colon) && White(p.gap) && White(p.after)
            && AreLetters(p.name) && IsJson(p.value)
            && PairsText(ps) + t
               == p.before
                  + (QuotedText(p.name) + (p.colon + ([COLON] + (p.gap + (Written(p.value) + (p.after + tail))))))
  {
    hide *;
    var p, tail := ps[0], (if |ps| == 1 then [] else [COMMA] + PairsText(ps[1..])) + t;
    PairsJoin(ps, t);
    PairParts(p);
    PairIs(p);
    SevenParts(p.before, QuotedText(p.name), p.colon, [COLON], p.gap, Written(p.value), p.after, tail);
  }

  lemma PairsJoin(ps: seq<NamedValue>, t: Text)
    requires ps != [] && forall i :: 0 <= i < |ps| ==> IsPair(ps[i])
    ensures IsPair(ps[0])
    ensures PairsText(ps) + t == PairText(ps[0]) + ((if |ps| == 1 then [] else [COMMA] + PairsText(ps[1..])) + t)
  {
    hide *;
    assert IsPair(ps[0]);
    if |ps| == 1 {
      OnePair(ps);
      NothingBefore(t);
    } else {
      PairsLines(ps);
      Shift(PairText(ps[0]), [COMMA] + PairsText(ps[1..]), t);
    }
  }

  lemma Shift(a: Text, b: Text, t: Text)
    ensures a + b + t == a + (b + t)
  {
  }

  lemma NothingBefore(t: Text)
    ensures [] + t == t
  {
  }

  lemma PairIs(p: NamedValue)
    requires IsPair(p)
    ensures AreLetters(p.name) && IsJson(p.value)
    ensures PairText(p)
            == p.before + QuotedText(p.name) + p.colon + [COLON] + p.gap + Written(p.value) + p.after
  {
    hide QuotedText, IsJson, Written, AreLetters;
    assert Ascii(":") == [COLON];
  }

  lemma SevenParts(a: Text, b: Text, c: Text, d: Text, e: Text, f: Text, g: Text, t: Text)
    ensures a + b + c + d + e + f + g + t == a + (b + (c + (d + (e + (f + (g + t))))))
  {
  }

  /** One name and value. */
  lemma {:induction false} PairRead(p: NamedValue, tail: Text)
    requires IsPair(p) && Follows(tail)
    ensures var s := p.before
                     + (QuotedText(p.name) + (p.colon + ([COLON] + (p.gap + (Written(p.value) + (p.after + tail))))));
            var r := ParseMember(s);
            && r.Ok? && r.rest == p.after + tail
            && (AllKept(p.name) && KeptIn(p.value) ==> MemberDenoted(p, r.value))
            && (MemberDenoted(p, r.value) ==> AllKept(p.name) && KeptIn(p.value))
    decreases p, 2
  {
    hide *;
    PairParts(p);
    var after := p.after + tail;
    var value := Written(p.value) + after;
    var rest := p.colon + ([COLON] + (p.gap + value));
    WhiteEnds(p.after, tail);
    WrittenStart(p.value);
    SkipNone(Written(p.value), after);
    ValueRead(p.value, after);
    WhiteSkipped(p.gap, value);
    ColonStops(p.gap + value);
    WhiteSkipped(p.colon, [COLON] + (p.gap + value));
    QuotedStart(p.name);
    SkipNone(QuotedText(p.name), rest);
    WhiteSkipped(p.before, QuotedText(p.name) + rest);
    NameRead(p.name, rest);
    MemberIs(p.before + (QuotedText(p.name) + rest), ParseString(QuotedText(p.name) + rest).value, rest, p.gap + value,
             ParseValue(value).value, after);
    MemberMeans(p, Member(ParseString(QuotedText(p.name) + rest).value, ParseValue(value).value));
  }

  lemma MemberMeans(p: NamedValue, m: Member)
    requires IsPair(p)
    ensures MemberDenoted(p, m) <==> Means(p.name, m.name) && Denotes(p.value, m.value)
  {
  }

  lemma PairParts(p: NamedValue)
    requires IsPair(p)
    ensures White(p.before) && White(p.colon) && White(p.gap) && White(p.after) && AreLetters(p.name) && IsJson(p.value)
  {
    hide White, AreLetters, IsJson;
  }

  lemma NameRead(letters: seq<Letter>, t: Text)
    requires AreLetters(letters)
    ensures var r := ParseString(QuotedText(letters) + t);
            r.Ok? && r.rest == t && (Means(letters, r.value) <==> AllKept(letters))
  {
    QuotedRead(letters, t);
    hide ParseString, LettersText, Means, AllKept, AreLetters;
  }

  lemma ColonStops(t: Text)
    ensures Skip([COLON] + t) == [COLON] + t && ([COLON] + t)[1..] == t && At([COLON] + t, 0) == COLON
  {
  }

  lemma MemberIs(s: Text, name: Text, rest: Text, u: Text, v: Json, end: Text)
    requires ParseString(Skip(s)) == Ok(name, rest) && Skip(rest) == [COLON] + u && ParseValue(Skip(u)) == Ok(v, end)
    ensures ParseMember(s) == Ok(Member(name, v), end)
  {
    hide ParseString, Skip, ParseValue;
    assert ([COLON] + u)[1..] == u;
  }

  lemma {:induction false} PairsRead(ps: seq<NamedValue>, t: Text)
    requires ps != [] && forall i :: 0 <= i < |ps| ==> IsPair(ps[i])
    ensures var r := ParseMembers(PairsText(ps) + ([RBRACE] + t));
            r.Ok? && r.rest == t && (MembersDenoted(ps, r.value) <==> MembersKept(ps))
    decreases ps, 0
  {
    hide *;
    var p, close := ps[0], [RBRACE] + t;
    var tail := (if |ps| == 1 then [] else [COMMA] + PairsText(ps[1..])) + close;
    var s, after := PairsText(ps) + close, p.after + tail;
    PairsShape(ps, close);
    TailFollows(if |ps| == 1 then [] else [COMMA] + PairsText(ps[1..]), close, tail);
    WhiteEnds(p.after, tail);
    PairRead(p, tail);
    MembersKeptStep(ps);
    var m := ParseMember(s).value;
    if |ps| == 1 {
      assert tail == close && ps[1..] == [];
      MembersLast(s, m, after, t);
      MembersDenotedStep(ps, m, []);
      NoneDenoted();
      assert [m] + [] == [m];
    } else {
      var u := PairsText(ps[1..]) + close;
      assert tail == [COMMA] + u;
      PairsRead(ps[1..], t);
      MembersMore(s, m, after, u, ParseMembers(u).value, t);
      MembersDenotedStep(ps, m, ParseMembers(u).value);
    }
  }

  /** Every JSON text of RFC 8259 is parsed to its end, whatever its white space, the spelling of its numbers and the
      escapes in its strings; and what comes out is what the text denotes if and only if no string in it has an
      escaped NUL or a surrogate pair whose high half has bit 6. */
  lemma JsonRead(before: Text, x: Syntax, after: Text)
    requires White(before) && IsJson(x) && White(after)
    ensures var r := Parse(before + Written(x) + after);
            r.Ok? && r.rest == after && (Denotes(x, r.value) <==> KeptIn(x))
  {
    hide IsJson, Written, Denotes, KeptIn, ParseValue;
    WrittenStart(x);
    WhiteIsEnd(after);
    ValueRead(x, after);
    assert before + Written(x) + after == before + (Written(x) + after);
    WhiteSkipped(before, Written(x) + after);
    SkipNone(Written(x), after);
  }

  lemma WhiteIsEnd(w: Text)
    requires White(w)
    ensures EndsNumber(w)
  {
  }

}
