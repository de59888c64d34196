/**
Parsing undoes printing: the printed form of every printable forest parses back to it.
*/
module ConfigRoundTrip {
  import opened Escaping
  import opened ConfigText

  // ----- what can be printed and read back -----

  predicate StartsIdentifier(c: char) {
    c != '[' && c != ']' && c != ',' && c != '\"' && c != '\''
  }

  ghost predicate LegalKey(key: string) {
    key != "" && StartsIdentifier(key[0]) && forall i :: 0 <= i < |key| ==> !EndsIdentifier(key[i])
  }

  ghost predicate PrintableElement(v: Value) {
    (v.Int? && INT64_MIN <= v.i <= INT64_MAX) || (v.Str? && NulFree(v.s))
  }

  ghost predicate PrintableElements(vs: seq<Value>) {
    forall i :: 0 <= i < |vs| ==> PrintableElement(vs[i])
  }

  ghost predicate PrintableValues(vs: seq<Value>) {
    vs == [EmptyArray] || (vs != [] && PrintableElements(vs))
  }

  ghost predicate Printable(n: Node)
    decreases n, 1
  {
    LegalKey(n.key) &&
    match n
    case Section(_, children) => AllPrintable(children)
    case Setting(_, values) => PrintableValues(values)
  }

  ghost predicate AllPrintable(ns: seq<Node>)
    decreases ns, 0
  {
    ns == [] || (Printable(ns[0]) && AllPrintable(ns[1..]))
  }

  lemma {:induction false} PrintableIsFloatFree(n: Node)
    requires Printable(n)
    ensures FloatFree(n)
    decreases n, 1
  {
    if n.Section? { AllPrintableIsFloatFree(n.children); }
  }

  lemma {:induction false} AllPrintableIsFloatFree(ns: seq<Node>)
    requires AllPrintable(ns)
    ensures AllFloatFree(ns)
    decreases ns, 0
  {
    if ns != [] {
      PrintableIsFloatFree(ns[0]);
      AllPrintableIsFloatFree(ns[1..]);
    }
  }

  // ----- tokens of the printed form -----

  lemma LexBlank(c: char, s: string, b: bool)
    requires IsSpace(c)
    ensures Lex([c] + s, b) == Lex(s, b)
  {
    assert ([c] + s)[1..] == s;
  }

  lemma {:induction false} LexTabs(n: nat, s: string, b: bool)
    ensures Lex(Tabs(n) + s, b) == Lex(s, b)
  {
    if n == 0 {
      assert Tabs(n) + s == s;
    } else {
      assert Tabs(n) + s == ['\t'] + (Tabs(n - 1) + s);
      LexBlank('\t', Tabs(n - 1) + s, b);
      LexTabs(n - 1, s, b);
    }
  }

  lemma LexPunctuation(c: char, s: string, b: bool)
    requires c in {'{', '}', '[', ']', ',', '='}
    ensures Lex([c] + s, b) == Token(TokenAt([c], b).0, [c], s)
  {
    assert SkipSpace([c] + s) == [c] + s;
    assert ([c] + s)[..1] == [c] && ([c] + s)[1..] == s;
  }

  lemma {:induction false} IdentifierLenIs(key: string, t: string)
    requires forall i :: 0 <= i < |key| ==> !EndsIdentifier(key[i])
    requires t != "" && EndsIdentifier(t[0])
    ensures IdentifierLen(key + t) == |key|
  {
    if key == "" {
      assert key + t == t;
    } else {
      assert (key + t)[1..] == key[1..] + t;
      IdentifierLenIs(key[1..], t);
    }
  }

  lemma LexKey(key: string, t: string)
    requires LegalKey(key) && t != "" && EndsIdentifier(t[0])
    ensures Lex(key + t, false) == Token(TIdentifier, key, t)
  {
    var s := key + t;
    assert s[0] == key[0];
    IdentifierLenIs(key, t);
    assert s[..|key|] == key && s[|key|..] == t;
  }

  lemma {:induction false} StringLenIs(s: string, t: string)
    requires NulFree(s)
    ensures StringLen(EscapeDoubleQuotes(s) + "\"" + t) == |EscapeDoubleQuotes(s)| + 1
  {
    var e := EscapeDoubleQuotes(s);
    var u := e + "\"" + t;
    if s == "" {
      assert u == "\"" + t;
    } else {
      var e1 := EscapeDoubleQuotes(s[1..]);
      var u1 := e1 + "\"" + t;
      StringLenIs(s[1..], t);
      if Quotable(s[0], '\"', '\\', true) {
        assert e == ['\\', s[0]] + e1;
        assert u[2..] == u1;
      } else {
        assert e == [s[0]] + e1;
        assert u[1..] == u1;
      }
    }
  }

  lemma LexString(s: string, t: string, b: bool)
    requires NulFree(s)
    ensures Lex(ValueText(Str(s)) + t, b) == Token(TStringEscaped, ValueText(Str(s)), t)
  {
    var q := ValueText(Str(s));
    var u := q + t;
    StringLenIs(s, t);
    assert u[1..] == EscapeDoubleQuotes(s) + "\"" + t;
    assert u[..|q|] == q && u[|q|..] == t;
  }

  // ----- numbers -----

  ghost predicate AllDigits(s: string) {
    forall i :: 0 <= i < |s| ==> IsDigit(s[i])
  }

  /** What may follow a printed value. */
  ghost predicate Stops(t: string) {
    t != "" && (t[0] == ',' || t[0] == ']' || t[0] == '\n')
  }

  lemma {:induction false} NumberTailIs(d: string, t: string)
    requires AllDigits(d) && Stops(t)
    ensures NumberTail(d + t, false) == Number(|d|, false)
  {
    if d == "" {
      assert d + t == t;
    } else {
      assert (d + t)[1..] == d[1..] + t;
      NumberTailIs(d[1..], t);
    }
  }

  lemma LexNumber(n: int, t: string)
    requires Stops(t)
    ensures Lex(Signed(n) + t, true) == Token(TInt, Signed(n), t)
  {
    hide Decimal, NumberTail, IdentifierLen, StringLen, SingleQuotedLen;
    var d := Signed(n);
    var u := d + t;
    assert u[0] == d[0];
    assert SkipSpace(u) == u;
    assert u[1..] == d[1..] + t;
    NumberTailIs(d[1..], t);
    assert u[..|d|] == d && u[|d|..] == t;
  }

  lemma {:induction false} DigitsThenMore(acc: nat, d: string, u: string)
    requires AllDigits(d)
    ensures Digits(acc, d + u, 10) == Digits(Digits(acc, d, 10), u, 10)
    decreases |d|
  {
    if d == "" {
      assert d + u == u;
    } else {
      assert (d + u)[1..] == d[1..] + u;
      DigitsThenMore(acc * 10 + DigitValue(d[0]), d[1..], u);
    }
  }

  lemma {:induction false} DigitsOfDecimal(n: nat)
    ensures Digits(0, Decimal(n), 10) == n
  {
    if n < 10 {
      assert Decimal(n)[1..] == "";
    } else {
      var d := [('0' as int + n % 10) as char];
      DigitsOfDecimal(n / 10);
      DigitsThenMore(0, Decimal(n / 10), d);
      assert d[1..] == "";
    }
  }

  lemma {:induction false} NoLeadingZero(n: nat)
    requires n > 0
    ensures Decimal(n)[0] != '0'
  {
    if n >= 10 { NoLeadingZero(n / 10); }
  }

  lemma MagnitudeOfDecimal(n: nat, t: string)
    requires Stops(t)
    ensures Magnitude(Decimal(n) + t) == n
  {
    var s := Decimal(n) + t;
    assert s[0] == Decimal(n)[0];
    if n == 0 {
      assert s[1..] == t;
      assert Digits(0, s, 8) == Digits(0, t, 8);
    } else {
      NoLeadingZero(n);
      DigitsThenMore(0, Decimal(n), t);
      DigitsOfDecimal(n);
    }
  }

  lemma StrtollOfSigned(n: int, t: string)
    requires Stops(t) && INT64_MIN <= n <= INT64_MAX
    ensures Strtoll(Signed(n) + t) == n
  {
    hide Decimal, Magnitude;
    var s := Signed(n) + t;
    if n < 0 {
      assert s[1..] == Decimal(-n) + t;
      MagnitudeOfDecimal(-n, t);
    } else {
      assert s[0] == Decimal(n)[0];
      MagnitudeOfDecimal(n, t);
    }
  }

  // ----- values -----

  lemma ElementParsesBack(v: Value, t: string)
    requires PrintableElement(v) && Stops(t)
    ensures ParseType(Lex(ValueText(v) + t, true)) == Ok(v, Lex(t, false))
  {
    if v.Int? {
      LexNumber(v.i, t);
      StrtollOfSigned(v.i, t);
    } else {
      LexString(v.s, t, true);
      var q := ValueText(v);
      assert Inside(q) == EscapeDoubleQuotes(v.s);
      UnquotedQuoted(v.s, '\"', '\\');
    }
  }

  /** An element and a comma are read as that element and whatever comes next. */
  lemma ElementThenMore(v: Value, r: string)
    requires PrintableElement(v)
    ensures ParseElements(Lex(ValueText(v) + ", " + r, true)) ==
            match ParseElements(Lex(r, true)) case Err => Err case Ok(vs, t) => Ok([v] + vs, t)
  {
    hide Lex, TokenAt, SkipSpace, ValueText, ParseType;
    var u := [','] + (" " + r);
    assert ValueText(v) + ", " + r == ValueText(v) + u;
    ElementParsesBack(v, u);
    FirstTokenOfElement(v, u);
    LexPunctuation(',', " " + r, false);
    PunctuationKinds();
    LexBlank(' ', r, true);
  }

  lemma LastElement(v: Value, t: string)
    requires PrintableElement(v)
    ensures ParseElements(Lex(ValueText(v) + "]" + t, true)) == Ok([v], Lex(t, false))
  {
    hide Lex, TokenAt, SkipSpace, ValueText, ParseType;
    var u := "]" + t;
    assert ValueText(v) + "]" + t == ValueText(v) + u;
    ElementParsesBack(v, u);
    FirstTokenOfElement(v, u);
    LexPunctuation(']', t, false);
    PunctuationKinds();
    assert [v] + [] == [v];
  }

  lemma {:induction false} ElementsParseBack(vs: seq<Value>, t: string)
    requires vs != [] && PrintableElements(vs)
    ensures ParseElements(Lex(ElementsText(vs) + "]" + t, true)) == Ok(vs, Lex(t, false))
  {
    hide Lex, ValueText, ParseElements;
    var v := vs[0];
    if |vs| == 1 {
      assert ElementsText(vs) + "]" + t == ValueText(v) + "]" + t;
      LastElement(v, t);
      assert vs == [v];
    } else {
      var r := ElementsText(vs[1..]) + "]" + t;
      assert PrintableElement(vs[1]);
      assert ElementsText(vs) + "]" + t == ValueText(v) + ", " + r;
      ElementThenMore(v, r);
      ElementsParseBack(vs[1..], t);
      assert vs == [v] + vs[1..];
    }
  }

  lemma FirstTokenOfElement(v: Value, t: string)
    requires PrintableElement(v) && Stops(t)
    ensures Lex(ValueText(v) + t, true).kind in {TInt, TStringEscaped}
  {
    if v.Int? { LexNumber(v.i, t); } else { LexString(v.s, t, true); }
  }

  lemma SingleParsesBack(v: Value, u: string)
    requires PrintableElement(v) && Stops(u)
    ensures ParseValue(Lex(ValueText(v) + u, true)) == Ok([v], Lex(u, false))
  {
    hide Lex, ParseType, ValueText;
    ElementParsesBack(v, u);
    FirstTokenOfElement(v, u);
  }

  lemma ArrayParsesBack(vs: seq<Value>, u: string)
    requires vs != [] && PrintableElements(vs)
    ensures ParseValue(Lex("[" + ElementsText(vs) + "]" + u, true)) == Ok(vs, Lex(u, false))
  {
    hide Lex, TokenAt, ParseElements, ElementsText;
    var e := ElementsText(vs) + "]" + u;
    assert "[" + ElementsText(vs) + "]" + u == ['['] + e;
    LexPunctuation('[', e, true);
    PunctuationKinds();
    ElementsParseBack(vs, u);
  }

  lemma ValuesParseBack(vs: seq<Value>, t: string)
    requires PrintableValues(vs)
    ensures ParseValue(Lex(ValuesText(vs) + "\n" + t, true)) == Ok(vs, Lex(t, false))
  {
    hide Lex, ParseValue, ElementsText;
    var u := "\n" + t;
    LexBlank('\n', t, false);
    assert ValuesText(vs) + "\n" + t == ValuesText(vs) + u;
    if vs == [EmptyArray] {
      EmptyArrayParsesBack(u);
    } else if |vs| == 1 {
      assert vs == [vs[0]];
      SingleParsesBack(vs[0], u);
    } else {
      ArrayParsesBack(vs, u);
      assert ValuesText(vs) + u == "[" + ElementsText(vs) + "]" + u;
    }
  }

  lemma PunctuationKinds()
    ensures forall b :: TokenAt("[", b).0 == TArrayB && TokenAt("]", b).0 == TArrayE && TokenAt(",", b).0 == TComma
    ensures forall b :: TokenAt("=", b).0 == TEq && TokenAt("{", b).0 == TSectionB && TokenAt("}", b).0 == TSectionE
  {
  }

  lemma EmptyArrayParsesBack(u: string)
    ensures ParseValue(Lex("[]" + u, true)) == Ok([EmptyArray], Lex(u, false))
  {
    hide Lex, TokenAt, SkipSpace;
    PunctuationKinds();
    assert "[]" + u == "[" + ("]" + u);
    LexPunctuation('[', "]" + u, true);
    LexPunctuation(']', u, true);
  }

  // ----- sections -----

  lemma LexIndent(level: nat, s: string)
    ensures Lex(Indent(level) + s, false) == Lex(s, false)
  {
    LexTabs(if level < MAX_INDENT then level else MAX_INDENT, s, false);
  }

  /** The tokens that open a section. */
  lemma OpeningTokens(key: string, level: nat, body: string)
    requires LegalKey(key)
    ensures Lex(Indent(level) + key + " {\n" + body, false) == Token(TIdentifier, key, " {\n" + body)
    ensures Lex(" {\n" + body, false) == Token(TSectionB, "{", "\n" + body)
    ensures Lex("\n" + body, false) == Lex(body, false)
  {
    hide Lex, TokenAt, Indent;
    var u := ['\n'] + body;
    var w := [' '] + (['{'] + u);
    assert w == " {\n" + body && u == "\n" + body;
    assert Indent(level) + key + " {\n" + body == Indent(level) + (key + w);
    LexIndent(level, key + w);
    LexKey(key, w);
    LexBlank(' ', ['{'] + u, false);
    LexPunctuation('{', u, false);
    PunctuationKinds();
    LexBlank('\n', body, false);
  }

  /** A section is its key and whatever its body is read as. */
  lemma SectionFromBody(key: string, level: nat, body: string)
    requires LegalKey(key)
    ensures ParseSection(Lex(Indent(level) + key + " {\n" + body, false)) ==
            match ParseBody(Lex(body, false)) case Err => Err case Ok(ns, t) => Ok(Section(key, ns), t)
  {
    hide Lex, ParseBody, Indent;
    OpeningTokens(key, level, body);
  }

  /** A setting is its key and whatever its value is read as. */
  lemma SettingFromValue(key: string, level: nat, u: string)
    requires LegalKey(key)
    ensures ParseSection(Lex(Indent(level) + key + "=" + u, false)) ==
            match ParseValue(Lex(u, true)) case Err => Err case Ok(vs, t) => Ok(Setting(key, vs), t)
  {
    hide Lex, TokenAt, ParseValue, Indent;
    assert Indent(level) + key + "=" + u == Indent(level) + (key + (['='] + u));
    LexIndent(level, key + (['='] + u));
    LexKey(key, ['='] + u);
    LexPunctuation('=', u, false);
    PunctuationKinds();
  }

  lemma SettingParsesBack(key: string, values: seq<Value>, level: nat, t: string)
    requires LegalKey(key) && PrintableValues(values)
    ensures ParseSection(Lex(NodeText(Setting(key, values), level) + t, false)) ==
            Ok(Setting(key, values), Lex(t, false))
  {
    hide Lex, ParseSection, ParseValue, ValuesText, Indent;
    var u := ValuesText(values) + "\n" + t;
    assert NodeText(Setting(key, values), level) + t == Indent(level) + key + "=" + u;
    SettingFromValue(key, level, u);
    ValuesParseBack(values, t);
  }

  lemma SectionParsesBack(key: string, children: seq<Node>, level: nat, t: string)
    requires LegalKey(key) && AllFloatFree(children)
    requires ParseBody(Lex(ForestText(children, level + 1) + Indent(level) + "}\n" + t, false)) ==
             Ok(children, Lex(t, false))
    ensures ParseSection(Lex(NodeText(Section(key, children), level) + t, false)) ==
            Ok(Section(key, children), Lex(t, false))
  {
    hide Lex, ParseSection, ParseBody, ForestText, Indent;
    var body := ForestText(children, level + 1) + Indent(level) + "}\n" + t;
    assert NodeText(Section(key, children), level) + t == Indent(level) + key + " {\n" + body;
    SectionFromBody(key, level, body);
  }

  /** One printed node, whatever follows it. */
  lemma {:induction false} NodeParsesBack(n: Node, level: nat, t: string)
    requires Printable(n) && FloatFree(n)
    ensures ParseSection(Lex(NodeText(n, level) + t, false)) == Ok(n, Lex(t, false))
    decreases n, 1
  {
    hide Lex, ParseSection, ParseBody, NodeText;
    match n
    case Section(key, children) =>
      BodyParsesBack(children, level, t);
      SectionParsesBack(key, children, level, t);
    case Setting(key, values) =>
      SettingParsesBack(key, values, level, t);
  }

  lemma NodeStartsWithKey(n: Node, level: nat, t: string)
    requires Printable(n) && FloatFree(n)
    ensures Lex(NodeText(n, level) + t, false).kind == TIdentifier
  {
    hide Lex, TokenAt, ForestText, ValuesText, Indent;
    match n
    case Section(key, children) =>
      var w := " {\n" + ForestText(children, level + 1) + Indent(level) + "}\n" + t;
      assert NodeText(n, level) + t == Indent(level) + (key + w);
      LexIndent(level, key + w);
      LexKey(key, w);
    case Setting(key, values) =>
      var w := "=" + ValuesText(values) + "\n" + t;
      assert NodeText(n, level) + t == Indent(level) + (key + w);
      LexIndent(level, key + w);
      LexKey(key, w);
  }

  /** The printed children of a section and its closing line. */
  lemma {:induction false} BodyParsesBack(ns: seq<Node>, level: nat, t: string)
    requires AllPrintable(ns) && AllFloatFree(ns)
    ensures ParseBody(Lex(ForestText(ns, level + 1) + Indent(level) + "}\n" + t, false)) == Ok(ns, Lex(t, false))
    decreases ns, 0
  {
    hide Lex, TokenAt, ParseSection, NodeText, Indent;
    var s := ForestText(ns, level + 1) + Indent(level) + "}\n" + t;
    if ns == [] {
      var u := ['\n'] + t;
      assert s == Indent(level) + (['}'] + u);
      LexIndent(level, ['}'] + u);
      LexPunctuation('}', u, false);
      PunctuationKinds();
      LexBlank('\n', t, false);
    } else {
      var r := ForestText(ns[1..], level + 1) + Indent(level) + "}\n" + t;
      assert s == NodeText(ns[0], level + 1) + r;
      NodeParsesBack(ns[0], level + 1, r);
      NodeStartsWithKey(ns[0], level + 1, r);
      BodyParsesBack(ns[1..], level, t);
      assert ns == [ns[0]] + ns[1..];
    }
  }

  lemma {:induction false} FileParsesBack(ns: seq<Node>)
    requires AllPrintable(ns) && AllFloatFree(ns)
    ensures ParseFile(Lex(ForestText(ns, 0), false)) == Ok(ns, Token(TEof, "", ""))
  {
    hide TokenAt, ParseSection, NodeText;
    if ns != [] {
      hide Lex;
      assert ForestText(ns, 0) == NodeText(ns[0], 0) + ForestText(ns[1..], 0);
      NodeParsesBack(ns[0], 0, ForestText(ns[1..], 0));
      NodeStartsWithKey(ns[0], 0, ForestText(ns[1..], 0));
      FileParsesBack(ns[1..]);
      assert ns == [ns[0]] + ns[1..];
    }
  }

  /** Every nonempty printable forest is what its printed form parses to. */
  lemma RoundTrip(ns: seq<Node>)
    requires ns != [] && AllPrintable(ns)
    ensures AllFloatFree(ns) && Parse(ForestText(ns, 0)) == Forest(ns)
  {
    AllPrintableIsFloatFree(ns);
    FileParsesBack(ns);
  }
}
