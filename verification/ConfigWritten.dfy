/**
Configuration texts as people write them.

A document is a forest with its layout: blanks and comments between any two tokens, integers in
decimal or octal, fractions, strings in either kind of quotes, arrays with their commas.  However
it is laid out, the parser finds the forest.
*/
module ConfigWritten {
  import opened Escaping
  import opened EscapeMeaning
  import opened ConfigText
  import opened ConfigRoundTrip
  import opened ConfigNumbers
  import opened Words

  // ----- layout -----

  datatype Piece = Blank(c: char) | Comment(text: string)

  /** Blanks, and comments that end with their line. */
  ghost predicate Layout(ps: seq<Piece>) {
    forall i :: 0 <= i < |ps| ==>
      match ps[i]
      case Blank(c) => c in " \t\n\r\U{0b}\U{0c}"
      case Comment(text) => '\n' !in text && NulFree(text)
  }

  function Gap(ps: seq<Piece>): string {
    if ps == [] then ""
    else (match ps[0] case Blank(c) => [c] case Comment(text) => "#" + text + "\n") + Gap(ps[1..])
  }

  lemma {:induction false} CommentLenIs(text: string, t: string)
    requires '\n' !in text && NulFree(text)
    ensures CommentLen(text + "\n" + t) == |text|
  {
    var s := text + "\n" + t;
    if text == "" {
      assert s[0] == '\n';
    } else {
      CommentLenIs(text[1..], t);
      assert s[1..] == text[1..] + "\n" + t;
    }
  }

  lemma LexComment(text: string, t: string, b: bool)
    requires '\n' !in text && NulFree(text)
    ensures Lex("#" + text + "\n" + t, b) == Lex(t, b)
  {
    var s := "#" + text + "\n" + t;
    assert '\n' !in "#" + text && NulFree("#" + text);
    CommentLenIs("#" + text, t);
    assert s[CommentLen(s)..] == ['\n'] + t;
    assert SkipSpace(s) == SkipSpace(['\n'] + t);
    LexBlank('\n', t, b);
  }

  /** Layout before a token makes no difference. */
  lemma {:induction false} LexGap(ps: seq<Piece>, t: string, b: bool)
    requires Layout(ps)
    ensures Lex(Gap(ps) + t, b) == Lex(t, b)
  {
    hide Lex;
    if ps == [] {
      assert Gap(ps) + t == t;
    } else {
      LexGap(ps[1..], t, b);
      var rest := Gap(ps[1..]) + t;
      match ps[0]
      case Blank(c) =>
        assert Gap(ps) + t == [c] + rest;
        LexBlank(c, rest, b);
      case Comment(text) =>
        assert Gap(ps) + t == "#" + text + "\n" + rest;
        LexComment(text, rest, b);
    }
  }

  lemma GapStarts(ps: seq<Piece>, t: string)
    requires Layout(ps)
    ensures ps != [] ==> Gap(ps) + t != "" && Delimits(Gap(ps) + t)
    ensures ps == [] ==> Gap(ps) + t == t
  {
  }

  /** What may stand after a number or a key. */
  ghost predicate Delimits(t: string) {
    t == "" || t[0] == NUL || t[0] in " \t\n\r\U{0b}\U{0c}#,]}={["
  }

  // ----- values -----

  datatype Literal =
    | Decimal(sign: Sign, n: nat)
    | Octal(sign: Sign, n: nat)
    | Fraction(sign: Sign, whole: string, part: string)
    | DoubleQuoted(units: seq<Unit>)
    | SingleQuoted(text: string)

  function LiteralText(l: Literal): string {
    match l
    case Decimal(sign, n) => SignText(sign) + Numeral(n, 10, false)
    case Octal(sign, n) => SignText(sign) + ("0" + Numeral(n, 8, false))
    case Fraction(sign, whole, part) => SignText(sign) + (whole + "." + part)
    case DoubleQuoted(units) => "\"" + UnitText(units, '\\') + "\""
    case SingleQuoted(text) => "'" + text + "'"
  }

  function LiteralValue(l: Literal): Value {
    match l
    case Decimal(sign, n) => Int(Meant(n, sign))
    case Octal(sign, n) => Int(Meant(n, sign))
    case Fraction(_, _, _) => Float(LiteralText(l))
    case DoubleQuoted(units) => Str(Text(Meaning(units, "\"", '\\')))
    case SingleQuoted(text) => Str(text)
  }

  predicate IsNumber(l: Literal) {
    l.Decimal? || l.Octal? || l.Fraction?
  }

  ghost predicate LegalUnit(u: Unit) {
    match u
    case Char(c) => c != '\"' && c != '\\' && c != NUL
    case Pair(c) => c != NUL
  }

  ghost predicate LegalUnits(us: seq<Unit>) {
    forall i :: 0 <= i < |us| ==> LegalUnit(us[i])
  }

  ghost predicate LegalLiteral(l: Literal) {
    match l
    case Decimal(_, _) => true
    case Octal(_, _) => true
    case Fraction(_, whole, part) => AllDigits(whole) && AllDigits(part)
    case DoubleQuoted(units) => LegalUnits(units)
    case SingleQuoted(text) => '\'' !in text && NulFree(text)
  }

  lemma {:induction false} NumberTailEnds(d: string, t: string, isFloat: bool)
    requires AllDigits(d) && Delimits(t)
    ensures NumberTail(d + t, isFloat) == Number(|d|, isFloat)
  {
    if d == "" {
      assert d + t == t;
    } else {
      assert (d + t)[1..] == d[1..] + t;
      NumberTailEnds(d[1..], t, isFloat);
    }
  }

  lemma {:induction false} FractionTailEnds(whole: string, part: string, t: string)
    requires AllDigits(whole) && AllDigits(part) && Delimits(t)
    ensures NumberTail(whole + "." + part + t, false) == Number(|whole + "." + part|, true)
  {
    var s := whole + "." + part + t;
    if whole == "" {
      assert s[0] == '.' && s[1..] == part + t;
      NumberTailEnds(part, t, true);
    } else {
      assert s[1..] == whole[1..] + "." + part + t;
      FractionTailEnds(whole[1..], part, t);
    }
  }

  lemma LexNumeral(sign: Sign, d: string, t: string)
    requires d != "" && AllDigits(d) && Delimits(t)
    ensures Lex(SignText(sign) + d + t, true) == Token(TInt, SignText(sign) + d, t)
  {
    hide NumberTail, IdentifierLen, StringLen, SingleQuotedLen;
    var w := SignText(sign) + d;
    var u := w + t;
    assert u[0] == w[0];
    assert SkipSpace(u) == u;
    assert u[1..] == w[1..] + t;
    NumberTailEnds(w[1..], t, false);
    assert u[..|w|] == w && u[|w|..] == t;
  }

  lemma LexFraction(sign: Sign, whole: string, part: string, t: string)
    requires AllDigits(whole) && AllDigits(part) && Delimits(t)
    ensures var w := SignText(sign) + (whole + "." + part);
      Lex(w + t, true) == Token(TFloat, w, t)
  {
    hide NumberTail, IdentifierLen, StringLen, SingleQuotedLen, SignText;
    var w := SignText(sign) + (whole + "." + part);
    var u := w + t;
    FractionTail(sign, whole, part, t);
    assert SkipSpace(u) == u;
    assert u[..|w|] == w && u[|w|..] == t;
  }

  lemma FractionTail(sign: Sign, whole: string, part: string, t: string)
    requires AllDigits(whole) && AllDigits(part) && Delimits(t)
    ensures var w := SignText(sign) + (whole + "." + part);
      var u := w + t;
      StartsNumber(u[0]) && NumberTail(u[1..], u[0] == '.') == Number(|w| - 1, true)
  {
    hide NumberTail, Delimits;
    var u := SignText(sign) + (whole + "." + part) + t;
    if sign != Unsigned {
      assert u[1..] == whole + "." + part + t;
      FractionTailEnds(whole, part, t);
    } else if whole == "" {
      assert u[1..] == part + t;
      NumberTailEnds(part, t, true);
    } else {
      assert u[0] == whole[0] && u[1..] == whole[1..] + "." + part + t;
      FractionTailEnds(whole[1..], part, t);
    }
  }

  lemma DelimitsEndsNumeral(t: string)
    requires Delimits(t)
    ensures EndsNumeral(t, 8) && EndsNumeral(t, 10)
  {
    if t != "" {
      forall d: nat, upper: bool | d < 16 ensures t[0] != DigitChar(d, upper) { DigitValueIs(d, upper); }
    }
  }

  lemma ZeroIsMeant(sign: Sign, t: string)
    requires Delimits(t)
    ensures Strtoll(SignText(sign) + (Numeral(0, 10, false) + t)) == Meant(0, sign)
  {
    hide Strtoll, SignText;
    DelimitsEndsNumeral(t);
    ZeroReads(sign, t);
  }

  lemma NumberParses(l: Literal, t: string)
    requires LegalLiteral(l) && IsNumber(l) && Delimits(t)
    ensures ParseType(Lex(LiteralText(l) + t, true)) == Ok(LiteralValue(l), Lex(t, false))
    ensures Lex(LiteralText(l) + t, true).kind in {TInt, TFloat}
  {
    hide Lex, Numeral, Strtoll, SignText, Meant, Delimits, EndsNumeral;
    if l.Fraction? {
      LexFraction(l.sign, l.whole, l.part, t);
      return;
    }
    DelimitsEndsNumeral(t);
    var d := if l.Decimal? then Numeral(l.n, 10, false) else "0" + Numeral(l.n, 8, false);
    NumeralIsDigits(l.n, if l.Decimal? then 10 else 8);
    LexNumeral(l.sign, d, t);
    assert SignText(l.sign) + d + t == SignText(l.sign) + (d + t);
    if l.Octal? {
      OctalReads(l.n, l.sign, t);
    } else if l.n > 0 {
      DecimalReads(l.n, l.sign, t);
    } else {
      ZeroIsMeant(l.sign, t);
    }
  }

  lemma {:induction false} UnitsLen(us: seq<Unit>, t: string)
    requires LegalUnits(us)
    ensures StringLen(UnitText(us, '\\') + "\"" + t) == |UnitText(us, '\\')| + 1
  {
    var s := UnitText(us, '\\') + "\"" + t;
    if us == [] {
      assert s == "\"" + t;
    } else {
      var rest := UnitText(us[1..], '\\') + "\"" + t;
      UnitsLen(us[1..], t);
      match us[0]
      case Char(c) => assert s[1..] == rest;
      case Pair(c) => assert s[2..] == rest;
    }
  }

  lemma LexDoubleQuoted(us: seq<Unit>, t: string, b: bool)
    requires LegalUnits(us)
    ensures Lex("\"" + UnitText(us, '\\') + "\"" + t, b) == Token(TStringEscaped, "\"" + UnitText(us, '\\') + "\"", t)
  {
    hide UnitText, NumberTail, IdentifierLen, StringLen, SingleQuotedLen;
    var w := "\"" + UnitText(us, '\\') + "\"";
    var u := w + t;
    UnitsLen(us, t);
    assert u[1..] == UnitText(us, '\\') + "\"" + t;
    assert u[..|w|] == w && u[|w|..] == t;
  }

  lemma {:induction false} SingleQuotedLenIs(text: string, t: string)
    requires '\'' !in text && NulFree(text)
    ensures SingleQuotedLen(text + "'" + t) == |text| + 1
  {
    var s := text + "'" + t;
    if text == "" {
      assert s == "'" + t;
    } else {
      SingleQuotedLenIs(text[1..], t);
      assert s[1..] == text[1..] + "'" + t;
    }
  }

  lemma LexSingleQuoted(text: string, t: string, b: bool)
    requires '\'' !in text && NulFree(text)
    ensures Lex("'" + text + "'" + t, b) == Token(TString, "'" + text + "'", t)
  {
    hide NumberTail, IdentifierLen, StringLen, SingleQuotedLen;
    var w := "'" + text + "'";
    var u := w + t;
    SingleQuotedLenIs(text, t);
    assert u[1..] == text + "'" + t;
    assert u[..|w|] == w && u[|w|..] == t;
  }

  lemma LegalIsProper(us: seq<Unit>)
    requires LegalUnits(us)
    ensures Proper(us, '\\')
  {
  }

  /** A literal is read as what it means; strings are recognised even where no value is expected. */
  lemma LiteralParses(l: Literal, t: string, b: bool)
    requires LegalLiteral(l) && (IsNumber(l) ==> b && Delimits(t))
    ensures ParseType(Lex(LiteralText(l) + t, b)) == Ok(LiteralValue(l), Lex(t, false))
    ensures Lex(LiteralText(l) + t, b).kind in {TInt, TFloat, TString, TStringEscaped}
  {
    hide Lex, UnitText, Unquoted, Meaning;
    match l
    case DoubleQuoted(us) =>
      LexDoubleQuoted(us, t, b);
      LegalIsProper(us);
      UnquotedOfUnits(us, '\"', '\\');
      var w := "\"" + UnitText(us, '\\') + "\"";
      assert w[1..|w| - 1] == UnitText(us, '\\');
    case SingleQuoted(text) =>
      LexSingleQuoted(text, t, b);
      var w := "'" + text + "'";
      assert w[1..|w| - 1] == text;
    case _ =>
      NumberParses(l, t);
  }

  // ----- arrays -----

  /** An element with the layout around it; the comma after it may be missing. */
  datatype Element = Element(before: seq<Piece>, literal: Literal, after: seq<Piece>, comma: bool)

  /** The elements, and then whatever ends the array. */
  function ElementsText(es: seq<Element>, tail: string): string
    decreases |es|, 1
  {
    if es == [] then tail else Gap(es[0].before) + (LiteralText(es[0].literal) + AfterText(es, tail))
  }

  function AfterText(es: seq<Element>, tail: string): string
    requires es != []
    decreases |es|, 0
  {
    Gap(es[0].after) + ((if es[0].comma then "," else "") + ElementsText(es[1..], tail))
  }

  function ElementValues(es: seq<Element>): seq<Value> {
    if es == [] then [] else [LiteralValue(es[0].literal)] + ElementValues(es[1..])
  }

  /** Numbers need a comma before them, and a delimiter after them. */
  ghost predicate LegalElements(es: seq<Element>, first: bool) {
    es == [] ||
    (&& LegalLiteral(es[0].literal) && Layout(es[0].before) && Layout(es[0].after)
     && (IsNumber(es[0].literal) ==>
           first && (es[0].after != [] || es[0].comma || |es| == 1 || es[1].before != []))
     && LegalElements(es[1..], es[0].comma))
  }

  /** What may follow the elements: neither a comma nor part of a number. */
  ghost predicate EndsElements(tail: string) {
    Delimits(tail) && Lex(tail, true) == Lex(tail, false) && Lex(tail, false).kind != TComma
  }

  lemma LexClose(close: seq<Piece>, c: char, t: string, b: bool)
    requires Layout(close) && c in {']', '}'}
    ensures Lex(Gap(close) + [c] + t, b) == Token(if c == ']' then TArrayE else TSectionE, [c], t)
    ensures Delimits(Gap(close) + [c] + t)
  {
    hide Lex, Gap;
    Associative(Gap(close), [c], t);
    LexGap(close, [c] + t, b);
    LexPunctuation(c, t, b);
    GapStarts(close, [c] + t);
  }

  lemma {:induction false} NextDelimits(es: seq<Element>, tail: string)
    requires LegalElements(es, false) && (es == [] || es[0].before != []) && Delimits(tail)
    ensures Delimits(ElementsText(es, tail))
  {
    hide LiteralText, LegalLiteral, Gap, AfterText, Delimits;
    if es != [] { GapStarts(es[0].before, LiteralText(es[0].literal) + AfterText(es, tail)); }
  }

  lemma CommaDelimits(more: string)
    ensures Delimits("," + more)
  {
  }

  lemma {:induction false} AfterDelimits(es: seq<Element>, tail: string)
    requires es != [] && LegalElements(es, true) && IsNumber(es[0].literal) && Delimits(tail)
    ensures Delimits(AfterText(es, tail))
  {
    hide LiteralText, LegalLiteral, Gap, ElementsText, Delimits;
    var e, more := es[0], ElementsText(es[1..], tail);
    GapStarts(e.after, (if e.comma then "," else "") + more);
    if e.after == [] {
      if e.comma {
        CommaDelimits(more);
      } else {
        assert "" + more == more;
        assert |es| > 1 ==> es[1..][0] == es[1];
        NextDelimits(es[1..], tail);
      }
    }
  }

  /** The first token of what is written. */
  lemma ElementsStart(es: seq<Element>, tail: string, b: bool)
    requires es != [] && LegalElements(es, b) && Delimits(tail)
    ensures Lex(ElementsText(es, tail), b) == Lex(LiteralText(es[0].literal) + AfterText(es, tail), b)
    ensures Lex(ElementsText(es, tail), b).kind in {TInt, TFloat, TString, TStringEscaped}
  {
    hide Lex, Gap, LiteralText, AfterText, LegalLiteral, Delimits;
    LexGap(es[0].before, LiteralText(es[0].literal) + AfterText(es, tail), b);
    if IsNumber(es[0].literal) { AfterDelimits(es, tail); }
    LiteralParses(es[0].literal, AfterText(es, tail), b);
  }

  /** What follows an element, up to the next one or the end. */
  lemma {:induction false} AfterElement(es: seq<Element>, tail: string)
    requires es != [] && LegalElements(es[1..], es[0].comma) && Layout(es[0].after) && EndsElements(tail)
    ensures SkipComma(Lex(AfterText(es, tail), false)) == Lex(ElementsText(es[1..], tail), es[0].comma)
  {
    hide Lex, Gap, Delimits, LegalElements;
    var e, more := es[0], ElementsText(es[1..], tail);
    LexGap(e.after, (if e.comma then "," else "") + more, false);
    if e.comma {
      LexPunctuation(',', more, false);
    } else {
      assert "" + more == more;
      if |es| > 1 { ElementsStart(es[1..], tail, false); }
    }
  }

  /** The elements are read one by one, and then what follows them. */
  lemma {:induction false} ElementsParse(es: seq<Element>, tail: string, b: bool)
    requires LegalElements(es, b) && EndsElements(tail)
    ensures ParseElements(Lex(ElementsText(es, tail), b)) ==
      match ParseElements(Lex(tail, false))
      case Err => Err
      case Ok(vs, t) => Ok(ElementValues(es) + vs, t)
    decreases |es|
  {
    hide Lex, AfterText, LiteralText, LegalLiteral, Delimits, ParseType;
    var r := ParseElements(Lex(tail, false));
    if es == [] {
      assert r.Ok? ==> [] + r.value == r.value;
    } else {
      ElementsStart(es, tail, b);
      if IsNumber(es[0].literal) { AfterDelimits(es, tail); }
      LiteralParses(es[0].literal, AfterText(es, tail), b);
      AfterElement(es, tail);
      ElementsParse(es[1..], tail, es[0].comma);
      if r.Ok? { Associative([LiteralValue(es[0].literal)], ElementValues(es[1..]), r.value); }
    }
  }

  lemma {:induction false} ElementsThen(es: seq<Element>, tail: string, t: string)
    ensures ElementsText(es, tail) + t == ElementsText(es, tail + t)
    decreases |es|
  {
    if es != [] {
      hide Gap, LiteralText;
      ElementsThen(es[1..], tail, t);
      var e, more, comma := es[0], ElementsText(es[1..], tail), if es[0].comma then "," else "";
      Associative(Gap(e.before), LiteralText(e.literal) + AfterText(es, tail), t);
      Associative(LiteralText(e.literal), AfterText(es, tail), t);
      Associative(Gap(e.after), comma + more, t);
      Associative(comma, more, t);
    }
  }

  /** A closed array. */
  lemma ArrayParses(es: seq<Element>, close: seq<Piece>, t: string)
    requires LegalElements(es, true) && Layout(close)
    ensures ParseElements(Lex(ElementsText(es, Gap(close) + "]") + t, true)) == Ok(ElementValues(es), Lex(t, false))
  {
    hide Lex, Gap, ElementsText, ParseType, LegalElements, Delimits;
    var tail := Gap(close) + "]" + t;
    ElementsThen(es, Gap(close) + "]", t);
    LexClose(close, ']', t, false);
    LexClose(close, ']', t, true);
    ElementsParse(es, tail, true);
    assert ElementValues(es) + [] == ElementValues(es);
  }

  /** One that is never closed is refused. */
  lemma UnclosedArray(es: seq<Element>, end: seq<Piece>, last: string)
    requires LegalElements(es, true) && LegalEnd(end, last)
    ensures ParseElements(Lex(ElementsText(es, Gap(end) + last), true)) == Err
  {
    hide Lex, Gap, ElementsText, LegalElements, Delimits;
    LexEnd(end, last, false);
    LexEnd(end, last, true);
    ElementsParse(es, Gap(end) + last, true);
  }

  // ----- settings and sections -----

  datatype Written = One(literal: Literal) | Array(elements: seq<Element>, close: seq<Piece>)

  datatype Item =
    | SettingItem(before: seq<Piece>, key: string, gap: seq<Piece>, gap2: seq<Piece>, value: Written)
    | SectionItem(before: seq<Piece>, key: string, gap: seq<Piece>, items: seq<Item>, close: seq<Piece>)

  function ValueWritten(v: Written): string {
    match v
    case One(l) => LiteralText(l)
    case Array(es, close) => "[" + ElementsText(es, Gap(close) + "]")
  }

  function ValuesMeant(v: Written): seq<Value> {
    match v
    case One(l) => [LiteralValue(l)]
    case Array(es, _) => if es == [] then [EmptyArray] else ElementValues(es)
  }

  ghost predicate LegalValue(v: Written) {
    match v
    case One(l) => LegalLiteral(l)
    case Array(es, close) => LegalElements(es, true) && Layout(close)
  }

  function ItemText(n: Item): string
    decreases n, 2
  {
    Gap(n.before) + KeyedText(n)
  }

  /** An item from its key on. */
  function KeyedText(n: Item): string
    decreases n, 1
  {
    match n
    case SettingItem(_, key, gap, gap2, value) => key + (Gap(gap) + ("=" + (Gap(gap2) + ValueWritten(value))))
    case SectionItem(_, key, gap, items, close) =>
      key + (Gap(gap) + ("{" + (ItemsText(items) + (Gap(close) + "}"))))
  }

  function ItemsText(ns: seq<Item>): string
    decreases ns, 0
  {
    if ns == [] then "" else ItemText(ns[0]) + ItemsText(ns[1..])
  }

  function NodeMeant(n: Item): Node
    decreases n, 1
  {
    match n
    case SettingItem(_, key, _, _, value) => Setting(key, ValuesMeant(value))
    case SectionItem(_, key, _, items, _) => Section(key, NodesMeant(items))
  }

  function NodesMeant(ns: seq<Item>): seq<Node>
    decreases ns, 0
  {
    if ns == [] then [] else [NodeMeant(ns[0])] + NodesMeant(ns[1..])
  }

  predicate EndsInNumber(n: Item) {
    n.SettingItem? && n.value.One? && IsNumber(n.value.literal)
  }

  ghost predicate LegalItem(n: Item)
    decreases n, 1
  {
    && LegalKey(n.key) && Layout(n.before) && Layout(n.gap)
    && match n
       case SettingItem(_, _, _, gap2, value) => Layout(gap2) && LegalValue(value)
       case SectionItem(_, _, _, items, close) => LegalItems(items) && Layout(close)
  }

  /** A bare number is set apart from the key after it. */
  ghost predicate LegalItems(ns: seq<Item>)
    decreases ns, 0
  {
    ns == [] ||
    (&& LegalItem(ns[0]) && LegalItems(ns[1..])
     && (EndsInNumber(ns[0]) && |ns| > 1 ==> ns[1].before != []))
  }

  lemma ValueParses(v: Written, t: string)
    requires LegalValue(v) && (v.One? && IsNumber(v.literal) ==> Delimits(t))
    ensures ParseValue(Lex(ValueWritten(v) + t, true)) == Ok(ValuesMeant(v), Lex(t, false))
  {
    hide Lex, LiteralText, ElementsText, ParseType, ParseElements, LegalLiteral, LegalElements, Delimits;
    match v
    case One(l) => LiteralParses(l, t, true);
    case Array(es, close) =>
      var u := ElementsText(es, Gap(close) + "]");
      Associative("[", u, t);
      LexPunctuation('[', u + t, true);
      PunctuationKinds();
      ArrayParses(es, close, t);
      SomeValues(es);
  }

  lemma SomeValues(es: seq<Element>)
    ensures ElementValues(es) == [] <==> es == []
  {
  }

  /** A key and the punctuation after it. */
  lemma KeyThen(before: seq<Piece>, key: string, gap: seq<Piece>, c: char, u: string)
    requires Layout(before) && Layout(gap) && LegalKey(key) && c in {'=', '{'}
    ensures var k := Lex(Gap(before) + (key + (Gap(gap) + ([c] + u))), false);
      k.kind == TIdentifier && k.lexeme == key && Next(k) == Token(if c == '=' then TEq else TSectionB, [c], u)
  {
    hide Lex, Gap, LegalKey;
    var rest := Gap(gap) + ([c] + u);
    LexGap(before, key + rest, false);
    KeyEnds(gap, c, u);
    LexKey(key, rest);
    LexGap(gap, [c] + u, false);
    LexPunctuation(c, u, false);
  }

  lemma KeyEnds(gap: seq<Piece>, c: char, u: string)
    requires Layout(gap) && c in {'=', '{'}
    ensures var rest := Gap(gap) + ([c] + u); rest != "" && EndsIdentifier(rest[0])
  {
    if gap == [] { assert Gap(gap) + ([c] + u) == [c] + u; }
  }

  lemma SettingWritten(n: Item, t: string)
    requires n.SettingItem? && LegalItem(n) && (EndsInNumber(n) ==> Delimits(t))
    ensures ParseSection(Lex(ItemText(n) + t, false)) == Ok(NodeMeant(n), Lex(t, false))
  {
    hide Lex, Gap, ParseValue, ValueWritten, ValuesMeant, Delimits, LegalValue, LegalKey;
    var u := Gap(n.gap2) + (ValueWritten(n.value) + t);
    assert ItemText(n) + t == Gap(n.before) + (n.key + (Gap(n.gap) + (['='] + u)));
    KeyThen(n.before, n.key, n.gap, '=', u);
    LexGap(n.gap2, ValueWritten(n.value) + t, true);
    ValueParses(n.value, t);
  }

  /** Any item, however it is laid out, is read as what it means. */
  lemma {:induction false} ItemParses(n: Item, t: string)
    requires LegalItem(n) && (EndsInNumber(n) ==> Delimits(t))
    ensures ParseSection(Lex(ItemText(n) + t, false)) == Ok(NodeMeant(n), Lex(t, false))
    decreases n, 1
  {
    if n.SettingItem? {
      SettingWritten(n, t);
    } else {
      BodyParses(n.items, n.close, t);
      SectionWritten(n, t);
    }
  }

  lemma SectionWritten(n: Item, t: string)
    requires n.SectionItem? && LegalItem(n)
    requires ParseBody(Lex(ItemsText(n.items) + (Gap(n.close) + "}") + t, false)) ==
             Ok(NodesMeant(n.items), Lex(t, false))
    ensures ParseSection(Lex(ItemText(n) + t, false)) == Ok(NodeMeant(n), Lex(t, false))
  {
    hide Lex, Gap, ItemsText, ParseBody, NodesMeant, LegalKey;
    var u := ItemsText(n.items) + (Gap(n.close) + "}") + t;
    assert ItemText(n) + t == Gap(n.before) + (n.key + (Gap(n.gap) + (['{'] + u)));
    KeyThen(n.before, n.key, n.gap, '{', u);
  }

  lemma ItemsDelimit(ns: seq<Item>, rest: string)
    requires ns != [] && LegalItems(ns) && EndsInNumber(ns[0]) && (|ns| == 1 ==> Delimits(rest))
    ensures Delimits(ItemsText(ns[1..]) + rest)
  {
    hide KeyedText, Delimits, Gap;
    if |ns| > 1 {
      var m, more := ns[1], ItemsText(ns[1..][1..]);
      assert m == ns[1..][0] && LegalItem(m);
      Associative(Gap(m.before), KeyedText(m), more);
      Associative(Gap(m.before), KeyedText(m) + more, rest);
      GapStarts(m.before, KeyedText(m) + more + rest);
    } else {
      assert ns[1..] == [] && ItemsText(ns[1..]) + rest == rest;
    }
  }

  lemma {:induction false} BodyParses(ns: seq<Item>, close: seq<Piece>, t: string)
    requires LegalItems(ns) && Layout(close)
    ensures ParseBody(Lex(ItemsText(ns) + (Gap(close) + "}") + t, false)) == Ok(NodesMeant(ns), Lex(t, false))
    decreases ns, 0
  {
    hide Lex, Gap, ItemText, ParseSection, NodeMeant, Delimits, LegalItem;
    var rest := Gap(close) + "}" + t;
    LexClose(close, '}', t, false);
    if ns == [] {
      assert ItemsText(ns) + (Gap(close) + "}") + t == rest;
    } else {
      var more := ItemsText(ns[1..]) + (Gap(close) + "}") + t;
      assert more == ItemsText(ns[1..]) + rest;
      assert ItemsText(ns) + (Gap(close) + "}") + t == ItemText(ns[0]) + more;
      if EndsInNumber(ns[0]) {
        CloseDelimits(close, t);
        ItemsDelimit(ns, rest);
      }
      ItemParses(ns[0], more);
      StartsItem(ns[0], more);
      BodyParses(ns[1..], close, t);
    }
  }

  lemma CloseDelimits(close: seq<Piece>, t: string)
    requires Layout(close)
    ensures Delimits(Gap(close) + "}" + t)
  {
    assert Gap(close) + "}" + t == Gap(close) + ("}" + t);
    GapStarts(close, "}" + t);
  }

  lemma StartsItem(n: Item, t: string)
    requires LegalItem(n)
    ensures Lex(ItemText(n) + t, false).kind == TIdentifier
  {
    hide Lex, Gap, LegalKey, ValueWritten, ItemsText;
    match n
    case SettingItem(before, key, gap, gap2, value) =>
      var u := Gap(gap2) + ValueWritten(value) + t;
      assert ItemText(n) + t == Gap(before) + (key + (Gap(gap) + (['='] + u)));
      KeyThen(before, key, gap, '=', u);
    case SectionItem(before, key, gap, items, close) =>
      var u := ItemsText(items) + (Gap(close) + "}") + t;
      assert ItemText(n) + t == Gap(before) + (key + (Gap(gap) + (['{'] + u)));
      KeyThen(before, key, gap, '{', u);
  }

  // ----- documents -----

  /** What may stand after the last item: layout, and a comment without an end of line. */
  ghost predicate LegalEnd(end: seq<Piece>, last: string) {
    Layout(end) && (last == "" || (last[0] == '#' && '\n' !in last && NulFree(last)))
  }

  lemma {:induction false} CommentToEnd(s: string)
    requires '\n' !in s && NulFree(s)
    ensures CommentLen(s) == |s|
  {
    if s != "" { CommentToEnd(s[1..]); }
  }

  lemma LexEnd(end: seq<Piece>, last: string, b: bool)
    requires LegalEnd(end, last)
    ensures Lex(Gap(end) + last, b) == Token(TEof, "", "") && Delimits(Gap(end) + last)
  {
    LexGap(end, last, b);
    GapStarts(end, last);
    if last != "" {
      CommentToEnd(last);
      assert last[|last|..] == "";
      assert SkipSpace(last) == SkipSpace("");
    }
  }

  lemma {:induction false} ItemsParse(ns: seq<Item>, end: seq<Piece>, last: string)
    requires LegalItems(ns) && LegalEnd(end, last)
    ensures ParseFile(Lex(ItemsText(ns) + (Gap(end) + last), false)) == Ok(NodesMeant(ns), Token(TEof, "", ""))
    decreases ns
  {
    hide Lex, Gap, ItemText, ParseSection, NodeMeant, Delimits, LegalItem;
    var rest := Gap(end) + last;
    LexEnd(end, last, false);
    if ns == [] {
      assert ItemsText(ns) + rest == rest;
    } else {
      var more := ItemsText(ns[1..]) + rest;
      assert ItemsText(ns) + rest == ItemText(ns[0]) + more;
      if EndsInNumber(ns[0]) { ItemsDelimit(ns, rest); }
      ItemParses(ns[0], more);
      StartsItem(ns[0], more);
      ItemsParse(ns[1..], end, last);
    }
  }

  /** Every way of writing a forest is parsed to it. */
  lemma DocumentParses(ns: seq<Item>, end: seq<Piece>, last: string)
    requires ns != [] && LegalItems(ns) && LegalEnd(end, last)
    ensures Parse(ItemsText(ns) + (Gap(end) + last)) == Forest(NodesMeant(ns))
  {
    hide Lex, ParseFile, ItemsText, LegalItems;
    ItemsParse(ns, end, last);
  }

  // ----- what is refused -----

  /** Layout alone is no document. */
  lemma NothingWritten(end: seq<Piece>, last: string)
    requires LegalEnd(end, last)
    ensures Parse(Gap(end) + last) == NoForest
  {
    LexEnd(end, last, false);
  }

  /** A section that is never closed. */
  lemma {:induction false} UnclosedBody(ns: seq<Item>, end: seq<Piece>, last: string)
    requires LegalItems(ns) && LegalEnd(end, last)
    ensures ParseBody(Lex(ItemsText(ns) + (Gap(end) + last), false)) == Err
    decreases ns
  {
    hide Lex, Gap, ItemText, ParseSection, NodeMeant, Delimits, LegalItem;
    var rest := Gap(end) + last;
    LexEnd(end, last, false);
    if ns == [] {
      assert ItemsText(ns) + rest == rest;
      NoSectionAtEnd();
    } else {
      var more := ItemsText(ns[1..]) + rest;
      assert ItemsText(ns) + rest == ItemText(ns[0]) + more;
      if EndsInNumber(ns[0]) { ItemsDelimit(ns, rest); }
      ItemParses(ns[0], more);
      StartsItem(ns[0], more);
      UnclosedBody(ns[1..], end, last);
    }
  }

  lemma NoSectionAtEnd()
    ensures ParseSection(Token(TEof, "", "")) == Err
  {
  }

  /** So a document that ends inside a section is refused, however deep. */
  lemma UnclosedSection(ns: seq<Item>, before: seq<Piece>, key: string, gap: seq<Piece>, items: seq<Item>,
                        end: seq<Piece>, last: string)
    requires LegalItems(ns) && LegalItems(items) && LegalKey(key)
    requires Layout(before) && Layout(gap) && LegalEnd(end, last)
    requires ns != [] && EndsInNumber(ns[|ns| - 1]) ==> before != []
    ensures var open := Gap(before) + (key + (Gap(gap) + ("{" + (ItemsText(items) + (Gap(end) + last)))));
      Parse(ItemsText(ns) + open) == NoForest
  {
    hide Lex, Gap, ItemsText, ParseFile, ParseBody, LegalItems, LegalKey, Delimits, LegalEnd;
    var u := ItemsText(items) + (Gap(end) + last);
    var tail := key + (Gap(gap) + ("{" + u));
    KeyThen(before, key, gap, '{', u);
    UnclosedBody(items, end, last);
    BodyRefused(Lex(Gap(before) + tail, false), u);
    GapStarts(before, tail);
    RefusedAfter(ns, Gap(before) + tail);
  }

  lemma BodyRefused(k: Token, u: string)
    requires k.kind == TIdentifier && Progresses(k) && Next(k) == Token(TSectionB, "{", u)
    requires ParseBody(Lex(u, false)) == Err
    ensures ParseFile(k) == Err
  {
    hide Lex, ParseBody;
  }

  /** What cannot start an item makes the rest of a document refused. */
  lemma {:induction false} RefusedAfter(ns: seq<Item>, rest: string)
    requires LegalItems(ns) && ParseFile(Lex(rest, false)) == Err
    requires ns != [] && EndsInNumber(ns[|ns| - 1]) ==> Delimits(rest)
    ensures ParseFile(Lex(ItemsText(ns) + rest, false)) == Err
    decreases ns
  {
    hide Lex, ItemText, ParseSection, NodeMeant, Delimits, LegalItem;
    if ns == [] {
      assert ItemsText(ns) + rest == rest;
    } else {
      var more := ItemsText(ns[1..]) + rest;
      assert ItemsText(ns) + rest == ItemText(ns[0]) + more;
      if EndsInNumber(ns[0]) { ItemsDelimit(ns, rest); }
      ItemParses(ns[0], more);
      StartsItem(ns[0], more);
      assert |ns| > 1 ==> ns[1..][|ns| - 2] == ns[|ns| - 1];
      RefusedAfter(ns[1..], rest);
    }
  }

  /** A brace that closes nothing. */
  lemma StrayBrace(ns: seq<Item>, close: seq<Piece>, t: string)
    requires LegalItems(ns) && Layout(close)
    ensures Parse(ItemsText(ns) + (Gap(close) + "}" + t)) == NoForest
  {
    hide Lex, Gap, ItemsText, LegalItems, Delimits;
    LexClose(close, '}', t, false);
    CloseDelimits(close, t);
    RefusedAfter(ns, Gap(close) + "}" + t);
  }

  /** A key without a value or a section. */
  lemma KeyAlone(ns: seq<Item>, before: seq<Piece>, key: string, gap: seq<Piece>, n: Item, t: string)
    requires LegalItems(ns) && LegalKey(key) && Layout(before) && Layout(gap) && gap != []
    requires LegalItem(n) && n.before == []
    requires ns != [] && EndsInNumber(ns[|ns| - 1]) ==> before != []
    ensures Parse(ItemsText(ns) + (Gap(before) + (key + (Gap(gap) + (ItemText(n) + t))))) == NoForest
  {
    hide Lex, Gap, ItemsText, ItemText, LegalItems, LegalKey, Delimits, LegalItem;
    var u := ItemText(n) + t;
    var tail := key + (Gap(gap) + u);
    LexGap(before, tail, false);
    GapEndsKey(gap, u);
    LexKey(key, Gap(gap) + u);
    LexGap(gap, u, false);
    StartsItem(n, t);
    GapStarts(before, tail);
    RefusedAfter(ns, Gap(before) + tail);
  }

  lemma GapEndsKey(gap: seq<Piece>, u: string)
    requires Layout(gap) && gap != []
    ensures Gap(gap) + u != "" && EndsIdentifier((Gap(gap) + u)[0])
  {
  }
}
