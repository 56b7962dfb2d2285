/** What the parser of src/cJSON.c makes of texts that are no JSON, and where it stops on them. */
module JsonErrors {
  import opened Decimals
  import opened JsonText
  import opened JsonGrammar

  // ----- strings that are none of section 7 -----

  /** A backslash before any other character stands for that character. */
  lemma OddEscape(c: Char, t: Text)
    requires c as int !in Ascii("bfnrtu")
    ensures Unescape(['\\' as int, c] + t) == Before([c], Unescape(t))
  {
    var letters := Ascii("bfnrtu");
    assert letters[0] == 98 && letters[1] == 102 && letters[2] == 110 && letters[3] == 114 && letters[4] == 116;
    assert letters[5] == 117;
    assert (['\\' as int, c] + t)[2..] == t;
    hide Unicode;
  }

  /** An escaped NUL and a low half on its own are left out. */
  lemma LowDropped(u: nat, upper: seq<bool>, t: Text)
    requires (u == 0 || 0xDC00 <= u <= 0xDFFF) && |upper| == 4
    ensures Unescape(Ascii("\\u") + FourDigits(u, upper) + t) == Before([], Unescape(t))
  {
    hide FourHex, FourHexValue, FourDigits, Utf8, Unescape, Unicode;
    var s := Ascii("\\u") + FourDigits(u, upper) + t;
    assert s[2..6] == FourDigits(u, upper) && s[6..] == t && s[0] == BACKSLASH && s[1] == LETTER_U;
    FourRead(u, upper, s, 2);
    UnicodeLow(s, u);
    EscapeIs(s);
  }

  lemma UnicodeLow(s: Text, u: nat)
    requires At(s, 0) == BACKSLASH && At(s, 1) == LETTER_U && FourHex(s, 2) && FourHexValue(s, 2) == u
    requires u == 0 || 0xDC00 <= u <= 0xDFFF
    ensures Unicode(s) == Ok([], s[6..])
  {
    hide FourHex, FourHexValue, Utf8;
  }

  /** So is a high half that no escape follows; with an escape that is no low half, both are. */
  lemma HighDropped(high: nat, upper: seq<bool>, t: Text)
    requires 0xD800 <= high <= 0xDBFF && |upper| == 4 && !(At(t, 0) == '\\' as int && At(t, 1) == 'u' as int)
    ensures Unescape(Ascii("\\u") + FourDigits(high, upper) + t) == Before([], Unescape(t))
  {
    hide FourHex, FourHexValue, FourDigits, Utf8, Unescape, Unicode;
    var s := Ascii("\\u") + FourDigits(high, upper) + t;
    assert s[2..6] == FourDigits(high, upper) && s[6..] == t && s[0] == BACKSLASH && s[1] == LETTER_U;
    assert At(s, 6) == At(t, 0) && At(s, 7) == At(t, 1);
    FourRead(high, upper, s, 2);
    UnicodeHigh(s, high);
    EscapeIs(s);
  }

  lemma UnicodeHigh(s: Text, high: nat)
    requires At(s, 0) == BACKSLASH && At(s, 1) == LETTER_U && FourHex(s, 2) && FourHexValue(s, 2) == high
    requires HighSurrogate(high) && !(At(s, 6) == BACKSLASH && At(s, 7) == LETTER_U)
    ensures Unicode(s) == Ok([], s[6..])
  {
    hide FourHex, FourHexValue, Utf8;
  }

  lemma BothDropped(high: nat, other: nat, upper: seq<bool>, t: Text)
    requires 0xD800 <= high <= 0xDBFF && other < 0x10000 && !(0xDC00 <= other <= 0xDFFF) && |upper| == 8
    ensures Unescape(Ascii("\\u") + FourDigits(high, upper[..4]) + (Ascii("\\u") + FourDigits(other, upper[4..])) + t)
            == Before([], Unescape(t))
  {
    hide FourHex, FourHexValue, FourDigits, Utf8, Unescape, Unicode;
    var a, b := FourDigits(high, upper[..4]), FourDigits(other, upper[4..]);
    var s := Ascii("\\u") + a + (Ascii("\\u") + b) + t;
    assert s[2..6] == a && s[8..12] == b && s[12..] == t;
    assert s[0] == s[6] == BACKSLASH && s[1] == s[7] == LETTER_U;
    FourRead(high, upper[..4], s, 2);
    FourRead(other, upper[4..], s, 8);
    UnicodeBoth(s, high, other);
    EscapeIs(s);
  }

  lemma UnicodeBoth(s: Text, high: nat, other: nat)
    requires At(s, 0) == BACKSLASH && At(s, 1) == LETTER_U && FourHex(s, 2) && FourHexValue(s, 2) == high
    requires At(s, 6) == BACKSLASH && At(s, 7) == LETTER_U && FourHex(s, 8) && FourHexValue(s, 8) == other
    requires HighSurrogate(high) && !LowSurrogate(other)
    ensures Unicode(s) == Ok([], s[12..])
  {
    hide FourHex, FourHexValue, Utf8, Joined;
  }

  // ----- where the parser stops on other texts -----

  /** No value starts here. */
  predicate NoValue(u: Text) {
    && !Starts(u, Ascii("null")) && !Starts(u, Ascii("false")) && !Starts(u, Ascii("true"))
    && At(u, 0) != '\"' as int && At(u, 0) != '-' as int && !('0' as int <= At(u, 0) <= '9' as int)
    && At(u, 0) != '[' as int && At(u, 0) != '{' as int
  }

  /** No white space comes first. */
  predicate Dense(u: Text) { At(u, 0) == 0 || At(u, 0) > ' ' as int }

  lemma DenseStays(w: Text, u: Text)
    requires White(w) && Dense(u)
    ensures Skip(w + u) == u && (EndsNumber(u) ==> EndsNumber(w + u))
  {
    WhiteSkipped(w, u);
    if w == [] { assert w + u == u; }
  }

  /** ep stands where a value should start. */
  lemma ValueStops(u: Text)
    requires NoValue(u)
    ensures ParseValue(u) == Fail(u)
  {
    hide ParseString, ParseNumber, ParseArray, ParseObject;
    assert Ascii("null") == NULL_TEXT && Ascii("false") == FALSE_TEXT && Ascii("true") == TRUE_TEXT;
  }

  lemma ItemsStop(s: Text, v: Json, rest: Text, u: Text)
    requires ParseValue(Skip(s)) == Ok(v, rest) && Skip(rest) == u && At(u, 0) != COMMA && At(u, 0) != RBRACKET
    ensures ParseItems(s) == Fail(u)
  {
    hide Skip, ParseValue;
  }

  lemma ItemsFailOn(s: Text, v: Json, rest: Text, x: Text, u: Text)
    requires ParseValue(Skip(s)) == Ok(v, rest) && Skip(rest) == [COMMA] + x && ParseItems(x) == Fail(u)
    ensures ParseItems(s) == Fail(u)
  {
    hide Skip, ParseValue;
    assert ([COMMA] + x)[1..] == x;
  }

  /** Past good elements to what fails behind the comma. */
  lemma {:induction false} ElementsThen(es: seq<Element>, x: Text, u: Text)
    requires es != [] && (forall i :: 0 <= i < |es| ==> IsElement(es[i])) && ParseItems(x) == Fail(u)
    ensures ParseItems(ElementsText(es) + ([COMMA] + x)) == Fail(u)
    decreases es
  {
    hide *;
    var e, close := es[0], [COMMA] + x;
    var tail := (if |es| == 1 then [] else [COMMA] + ElementsText(es[1..])) + close;
    var s, after := ElementsText(es) + close, e.after + tail;
    ElementsShape(es, close);
    WrittenStart(e.value);
    WhiteSkipped(e.before, Written(e.value) + after);
    SkipNone(Written(e.value), after);
    CommaFollows(if |es| == 1 then [] else [COMMA] + ElementsText(es[1..]), close, tail);
    WhiteEnds(e.after, tail);
    ValueRead(e.value, after);
    var v := ParseValue(Written(e.value) + after).value;
    if |es| == 1 {
      NothingBefore(close);
      ItemsFailOn(s, v, after, x, u);
    } else {
      ElementsThen(es[1..], x, u);
      Shift([COMMA], ElementsText(es[1..]), close);
      ItemsFailOn(s, v, after, ElementsText(es[1..]) + close, u);
    }
  }

  lemma CommaFollows(more: Text, close: Text, tail: Text)
    requires (more == [] || more[0] == COMMA) && close != [] && close[0] == COMMA && tail == more + close
    ensures Follows(tail)
  {
  }

  /** Past one element to what neither goes on nor ends the list. */
  lemma LastElementStops(e: Element, u: Text)
    requires IsElement(e) && Dense(u) && EndsNumber(u) && At(u, 0) != COMMA && At(u, 0) != RBRACKET
    ensures ParseItems(ElementText(e) + u) == Fail(u)
  {
    hide *;
    var s, after := ElementText(e) + u, e.after + u;
    ElementIs(e, u);
    WrittenStart(e.value);
    WhiteSkipped(e.before, Written(e.value) + after);
    SkipNone(Written(e.value), after);
    DenseStays(e.after, u);
    ValueRead(e.value, after);
    ItemsStop(s, ParseValue(Written(e.value) + after).value, after, u);
  }

  lemma ElementIs(e: Element, t: Text)
    requires IsElement(e)
    ensures White(e.before) && White(e.after) && IsJson(e.value)
    ensures ElementText(e) + t == e.before + (Written(e.value) + (e.after + t))
  {
    hide IsJson, Written;
    assert ElementText(e) == e.before + Written(e.value) + e.after;
    assert e.before + Written(e.value) + e.after + t == e.before + (Written(e.value) + (e.after + t));
  }

  lemma ArrayFails(s: Text, x: Text, u: Text)
    requires s == Ascii("[") + x && At(Skip(x), 0) != RBRACKET && ParseItems(x) == Fail(u)
    ensures ParseValue(s) == Fail(u)
  {
    assert Ascii("[") == [LBRACKET];
    assert s[1..] == x;
    NoWord(s);
    SkipTwice(x);
    ItemsSkip(Skip(x), x);
    hide Skip, ParseItems;
  }

  /** In a list, after any good elements and a comma, or right after the bracket, ep stands where a value should. */
  lemma ListStopsAtValue(es: seq<Element>, w: Text, u: Text)
    requires forall i :: 0 <= i < |es| ==> IsElement(es[i])
    requires White(w) && Dense(u) && NoValue(u) && (es == [] ==> At(u, 0) != ']' as int)
    ensures ParseValue(Ascii("[") + ((if es == [] then [] else ElementsText(es) + Ascii(",")) + (w + u))) == Fail(u)
  {
    var x := (if es == [] then [] else ElementsText(es) + Ascii(",")) + (w + u);
    assert Ascii(",") == [COMMA];
    hide *;
    DenseStays(w, u);
    ValueStops(u);
    ItemsFailFirst(w + u, u);
    if es == [] {
      NothingBefore(w + u);
    } else {
      Shift(ElementsText(es), [COMMA], w + u);
      ElementsThen(es, w + u, u);
      ElementsStart(es, [COMMA] + (w + u));
    }
    ArrayFails(Ascii("[") + x, x, u);
  }

  lemma ItemsFailFirst(x: Text, u: Text)
    requires Skip(x) == u && ParseValue(u) == Fail(u)
    ensures ParseItems(x) == Fail(u)
  {
    hide Skip, ParseValue;
  }

  /** After any good elements, ep stands where neither a comma nor the bracket is. */
  lemma ListStopsAfter(es: seq<Element>, e: Element, u: Text)
    requires (forall i :: 0 <= i < |es| ==> IsElement(es[i])) && IsElement(e)
    requires Dense(u) && EndsNumber(u) && At(u, 0) != ',' as int && At(u, 0) != ']' as int
    ensures ParseValue(Ascii("[") + ((if es == [] then [] else ElementsText(es) + Ascii(",")) + (ElementText(e) + u)))
            == Fail(u)
  {
    var x := (if es == [] then [] else ElementsText(es) + Ascii(",")) + (ElementText(e) + u);
    assert Ascii(",") == [COMMA];
    hide *;
    LastElementStops(e, u);
    if es == [] {
      NothingBefore(ElementText(e) + u);
      OneStarts(e, u);
    } else {
      Shift(ElementsText(es), [COMMA], ElementText(e) + u);
      ElementsThen(es, ElementText(e) + u, u);
      ElementsStart(es, [COMMA] + (ElementText(e) + u));
    }
    ArrayFails(Ascii("[") + x, x, u);
  }

  lemma OneStarts(e: Element, u: Text)
    requires IsElement(e)
    ensures At(Skip(ElementText(e) + u), 0) != RBRACKET
  {
    hide *;
    ElementIs(e, u);
    WrittenStart(e.value);
    WhiteSkipped(e.before, Written(e.value) + (e.after + u));
    SkipNone(Written(e.value), e.after + u);
  }

  lemma MembersFailOn(s: Text, m: Member, rest: Text, x: Text, u: Text)
    requires ParseMember(s) == Ok(m, rest) && Skip(rest) == [COMMA] + x && ParseMembers(x) == Fail(u)
    ensures ParseMembers(s) == Fail(u)
  {
    hide Skip, ParseMember;
    assert ([COMMA] + x)[1..] == x;
  }

  /** Past good pairs to what fails behind the comma. */
  lemma {:induction false} PairsThen(ps: seq<NamedValue>, x: Text, u: Text)
    requires ps != [] && (forall i :: 0 <= i < |ps| ==> IsPair(ps[i])) && ParseMembers(x) == Fail(u)
    ensures ParseMembers(PairsText(ps) + ([COMMA] + x)) == Fail(u)
    decreases ps
  {
    hide *;
    var p, close := ps[0], [COMMA] + x;
    var tail := (if |ps| == 1 then [] else [COMMA] + PairsText(ps[1..])) + close;
    var s, after := PairsText(ps) + close, p.after + tail;
    PairsShape(ps, close);
    CommaFollows(if |ps| == 1 then [] else [COMMA] + PairsText(ps[1..]), close, tail);
    WhiteEnds(p.after, tail);
    PairRead(p, tail);
    var m := ParseMember(s).value;
    if |ps| == 1 {
      NothingBefore(close);
      MembersFailOn(s, m, after, x, u);
    } else {
      PairsThen(ps[1..], x, u);
      Shift([COMMA], PairsText(ps[1..]), close);
      MembersFailOn(s, m, after, PairsText(ps[1..]) + close, u);
    }
  }

  lemma ObjectFails(s: Text, x: Text, u: Text)
    requires s == Ascii("{") + x && At(Skip(x), 0) != RBRACE && ParseMembers(x) == Fail(u)
    ensures ParseValue(s) == Fail(u)
  {
    assert Ascii("{") == [LBRACE];
    assert s[1..] == x;
    NoWord(s);
    SkipTwice(x);
    MembersSkip(Skip(x), x);
    hide Skip, ParseMembers;
  }

  /** What fails in a member, in a record after any good pairs: ep stands at the same place. */
  lemma RecordStops(ps: seq<NamedValue>, x: Text, u: Text)
    requires forall i :: 0 <= i < |ps| ==> IsPair(ps[i])
    requires ParseMember(x) == Fail(u) && (ps == [] ==> At(Skip(x), 0) != '}' as int)
    ensures ParseValue(Ascii("{") + ((if ps == [] then [] else PairsText(ps) + Ascii(",")) + x)) == Fail(u)
  {
    var y := (if ps == [] then [] else PairsText(ps) + Ascii(",")) + x;
    assert Ascii(",") == [COMMA];
    hide *;
    MembersFailFirst(x, u);
    if ps == [] {
      NothingBefore(x);
    } else {
      Shift(PairsText(ps), [COMMA], x);
      PairsThen(ps, x, u);
      PairsStart(ps, [COMMA] + x);
    }
    ObjectFails(Ascii("{") + y, y, u);
  }

  lemma MembersFailFirst(x: Text, u: Text)
    requires ParseMember(x) == Fail(u)
    ensures ParseMembers(x) == Fail(u)
  {
    hide ParseMember;
  }

  /** In a member, ep stands where the name should start, where the colon should stand, or where the value should. */
  lemma MemberStopsAtName(w: Text, u: Text)
    requires White(w) && Dense(u) && At(u, 0) != '\"' as int
    ensures ParseMember(w + u) == Fail(u)
  {
    DenseStays(w, u);
    hide Skip, Unescape, ParseValue;
  }

  lemma MemberStopsAtColon(w: Text, name: seq<Letter>, w2: Text, u: Text)
    requires White(w) && AreLetters(name) && White(w2) && Dense(u) && At(u, 0) != ':' as int
    ensures ParseMember(w + (QuotedText(name) + (w2 + u))) == Fail(u)
  {
    DenseStays(w2, u);
    QuotedStart(name);
    SkipNone(QuotedText(name), w2 + u);
    WhiteSkipped(w, QuotedText(name) + (w2 + u));
    NameRead(name, w2 + u);
    hide Skip, ParseString, ParseValue, QuotedText;
  }

  lemma MemberStopsAtValue(w: Text, name: seq<Letter>, w2: Text, w3: Text, u: Text)
    requires White(w) && AreLetters(name) && White(w2) && White(w3) && Dense(u) && NoValue(u)
    ensures ParseMember(w + (QuotedText(name) + (w2 + (Ascii(":") + (w3 + u))))) == Fail(u)
  {
    assert Ascii(":") == [COLON];
    var rest := w2 + ([COLON] + (w3 + u));
    DenseStays(w3, u);
    ValueStops(u);
    ColonStops(w3 + u);
    WhiteSkipped(w2, [COLON] + (w3 + u));
    QuotedStart(name);
    SkipNone(QuotedText(name), rest);
    WhiteSkipped(w, QuotedText(name) + rest);
    NameRead(name, rest);
    MemberFails(w + (QuotedText(name) + rest), ParseString(QuotedText(name) + rest).value, rest, w3 + u, u);
  }

  lemma MemberFails(s: Text, name: Text, rest: Text, x: Text, u: Text)
    requires ParseString(Skip(s)) == Ok(name, rest) && Skip(rest) == [COLON] + x && ParseValue(Skip(x)) == Fail(u)
    ensures ParseMember(s) == Fail(u)
  {
    hide ParseString, Skip, ParseValue;
    assert ([COLON] + x)[1..] == x;
  }

  /** After any good pairs, ep stands where neither a comma nor the brace is. */
  lemma RecordStopsAfter(ps: seq<NamedValue>, p: NamedValue, u: Text)
    requires (forall i :: 0 <= i < |ps| ==> IsPair(ps[i])) && IsPair(p)
    requires Dense(u) && EndsNumber(u) && At(u, 0) != ',' as int && At(u, 0) != '}' as int
    ensures ParseValue(Ascii("{") + ((if ps == [] then [] else PairsText(ps) + Ascii(",")) + (PairText(p) + u)))
            == Fail(u)
  {
    var y := (if ps == [] then [] else PairsText(ps) + Ascii(",")) + (PairText(p) + u);
    assert Ascii(",") == [COMMA];
    hide *;
    LastPairStops(p, u);
    if ps == [] {
      NothingBefore(PairText(p) + u);
      OnePairStarts(p, u);
    } else {
      Shift(PairsText(ps), [COMMA], PairText(p) + u);
      PairsThen(ps, PairText(p) + u, u);
      PairsStart(ps, [COMMA] + (PairText(p) + u));
    }
    ObjectFails(Ascii("{") + y, y, u);
  }

  lemma LastPairStops(p: NamedValue, u: Text)
    requires IsPair(p) && Dense(u) && EndsNumber(u) && At(u, 0) != COMMA && At(u, 0) != RBRACE
    ensures ParseMembers(PairText(p) + u) == Fail(u)
  {
    hide *;
    PairShape(p, u);
    PairStops(p, u);
    var s := PairText(p) + u;
    DensePair(p, u);
    MembersStop(s, ParseMember(s).value, p.after + u, u);
  }

  lemma MembersStop(s: Text, m: Member, rest: Text, u: Text)
    requires ParseMember(s) == Ok(m, rest) && Skip(rest) == u && At(u, 0) != COMMA && At(u, 0) != RBRACE
    ensures ParseMembers(s) == Fail(u)
  {
    hide Skip, ParseMember;
  }

  lemma DensePair(p: NamedValue, u: Text)
    requires IsPair(p) && Dense(u)
    ensures Skip(p.after + u) == u
  {
    DenseStays(p.after, u);
  }

  lemma PairShape(p: NamedValue, t: Text)
    requires IsPair(p)
    ensures White(p.before) && AreLetters(p.name) && White(p.colon) && White(p.gap) && IsJson(p.value) && White(p.after)
    ensures PairText(p) + t
            == p.before + (QuotedText(p.name) + (p.colon + ([COLON] + (p.gap + (Written(p.value) + (p.after + t))))))
  {
    hide *;
    PairParts(p);
    PairIs(p);
    SevenParts(p.before, QuotedText(p.name), p.colon, [COLON], p.gap, Written(p.value), p.after, t);
  }

  lemma OnePairStarts(p: NamedValue, u: Text)
    requires IsPair(p)
    ensures At(Skip(PairText(p) + u), 0) != RBRACE
  {
    hide *;
    PairShape(p, u);
    QuotedStart(p.name);
    var rest := p.colon + ([COLON] + (p.gap + (Written(p.value) + (p.after + u))));
    WhiteSkipped(p.before, QuotedText(p.name) + rest);
    SkipNone(QuotedText(p.name), rest);
  }

  /** One name and value, before something that ends a number. */
  lemma PairStops(p: NamedValue, u: Text)
    requires IsPair(p) && Dense(u) && EndsNumber(u)
    ensures var s := p.before
                     + (QuotedText(p.name) + (p.colon + ([COLON] + (p.gap + (Written(p.value) + (p.after + u))))));
            ParseMember(s).Ok? && ParseMember(s).rest == p.after + u
  {
    hide *;
    PairParts(p);
    var after := p.after + u;
    var value := Written(p.value) + after;
    var rest := p.colon + ([COLON] + (p.gap + value));
    DenseStays(p.after, u);
    WrittenStart(p.value);
    SkipNone(Written(p.value), after);
    ValueRead(p.value, after);
    WhiteSkipped(p.gap, value);
    ColonStops(p.gap + value);
    WhiteSkipped(p.colon, [COLON] + (p.gap + value));
    QuotedStart(p.name);
    SkipNone(QuotedText(p.name), rest);
    WhiteSkipped(p.before, QuotedText(p.name) + rest);
    NameRead(p.name, rest);
    MemberIs(p.before + (QuotedText(p.name) + rest), ParseString(QuotedText(p.name) + rest).value, rest, p.gap + value,
             ParseValue(value).value, after);
  }

  // ----- numbers that are none of section 6 -----

  /** A zero in front is passed over, a sign alone is 0, a point without digits is left, an exponent may be empty. */
  lemma LooseNumbers()
    ensures ReadNumber(Ascii("07")) == (7, 0, []) && ReadNumber(Ascii("-")) == (0, 0, [])
    ensures ReadNumber(Ascii("7.")) == (7, 0, Ascii(".")) && ReadNumber(Ascii("7e")) == (7, 0, [])
  {
    Seven();
    var a, b, c, d := Ascii("07"), Ascii("-"), Ascii("7."), Ascii("7e");
    assert a[1..] == [55] && b[1..] == [] && c[1..] == Ascii(".") && d[1..] == [LETTER_E] && d[1..][1..] == [];
    assert Exponent([]) == (0, []) && Exponent(Ascii(".")) == (0, Ascii("."));
    assert Exponent([LETTER_E]) == Digits([LETTER_E][1..], 0);
  }

  lemma Seven()
    ensures Digits([55], 0) == (7, []) && Digits([55, POINT], 0) == (7, [POINT])
    ensures Digits([55, LETTER_E], 0) == (7, [LETTER_E]) && Digits([], 0) == (0, [])
  {
    assert [55][1..] == [] && [55, POINT][1..] == [POINT] && [55, LETTER_E][1..] == [LETTER_E];
  }
}
