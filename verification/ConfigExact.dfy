/**
Exactly which forests survive the printer's fragment buffer.

A fragment of 4095 characters is cut short: a key loses its last character, a string its
closing quote, which makes it swallow what follows.  A longer one ends the printing of its
siblings.  Only a string that ends the whole text gets away with it.
*/
module ConfigExact {
  import opened Escaping
  import opened ConfigText
  import opened ConfigRoundTrip
  import opened ConfigPrint

  // ----- what the printer writes -----

  /** What is left of a fragment that is not refused. */
  function Cut(s: string): string {
    if |s| == FRAGMENT_SIZE then s[..FRAGMENT_SIZE - 1] else s
  }

  lemma AppendIsCut(l: Line, s: string)
    requires l.Line?
    ensures Append(l, s) == if |s| <= FRAGMENT_SIZE then Line(l.text + Cut(s)) else Failed
  {
  }

  ghost predicate ValuesPass(vs: seq<Value>)
    requires NoFloats(vs)
  {
    forall i :: 0 <= i < |vs| ==> |ValueText(vs[i])| <= FRAGMENT_SIZE
  }

  function CutElements(vs: seq<Value>): string
    requires NoFloats(vs)
  {
    if vs == [] then ""
    else Cut(ValueText(vs[0])) + (if |vs| > 1 then ", " + CutElements(vs[1..]) else "")
  }

  function CutValues(vs: seq<Value>): string
    requires vs != [] && NoFloats(vs)
  {
    if |vs| > 1 then "[" + CutElements(vs) + "]" else Cut(ValueText(vs[0]))
  }

  lemma {:induction false} ElementsWritten(l: Line, vs: seq<Value>)
    requires l.Line? && PrintableElements(vs)
    ensures AppendElements(l, vs) == if ValuesPass(vs) then Line(l.text + CutElements(vs)) else Failed
    decreases |vs|
  {
    hide ValueText, Cut;
    if vs == [] {
      assert l.text + "" == l.text;
    } else {
      var l1 := Append(l, ValueText(vs[0]));
      AppendIsCut(l, ValueText(vs[0]));
      var rest := vs[1..];
      assert forall i :: 0 <= i < |rest| ==> rest[i] == vs[i+1];
      assert ValuesPass(vs) <==> |ValueText(vs[0])| <= FRAGMENT_SIZE && ValuesPass(rest);
      if |vs| > 1 {
        assert PrintableElement(vs[1]);
        if l1.Failed? {
          FailedStays(rest);
        } else {
          var l2 := Append(l1, ", ");
          ElementsWritten(l2, rest);
          assert l2.text + CutElements(rest) == l.text + CutElements(vs);
        }
      } else {
        assert CutElements(vs) == Cut(ValueText(vs[0]));
      }
    }
  }

  lemma ValuesWritten(l: Line, vs: seq<Value>)
    requires l.Line? && PrintableValues(vs)
    ensures AppendValues(l, vs) == if ValuesPass(vs) then Line(l.text + CutValues(vs)) else Failed
  {
    hide ValueText, CutElements, AppendElements;
    if |vs| > 1 {
      ElementsWritten(Append(l, "["), vs);
      assert l.text + "[" + CutElements(vs) + "]" == l.text + CutValues(vs);
    }
  }

  // ----- what it reports -----

  /** No fragment of the node itself is refused. */
  ghost predicate Passes(n: Node, level: nat)
    requires FloatFree(n)
  {
    |Indent(level) + n.key| <= FRAGMENT_SIZE && (n.Setting? ==> ValuesPass(n.values))
  }

  ghost predicate AllPass(ns: seq<Node>, level: nat)
    requires AllFloatFree(ns)
  {
    ns == [] || (Passes(ns[0], level) && AllPass(ns[1..], level))
  }

  lemma SettingWritten(key: string, vs: seq<Value>, level: nat)
    requires PrintableValues(vs)
    ensures SettingLine(key, vs, level) ==
            if |Indent(level) + key| <= FRAGMENT_SIZE && ValuesPass(vs)
            then Line(Cut(Indent(level) + key) + "=" + CutValues(vs)) else Failed
  {
    hide Indent, AppendValues, CutValues;
    var start := Append(Append(Line(""), Indent(level) + key), "=");
    if start.Failed? {
      NothingAfterFailure(vs);
    } else {
      assert start.text == Cut(Indent(level) + key) + "=";
      ValuesWritten(start, vs);
    }
  }

  lemma OpeningWritten(key: string, level: nat)
    ensures OpeningLine(key, level) ==
            if |Indent(level) + key| <= FRAGMENT_SIZE then Line(Cut(Indent(level) + key) + " {") else Failed
  {
    hide Indent;
  }

  /** One node is reported printed exactly when none of its own fragments is too long. */
  lemma NodeOkIff(n: Node, level: nat)
    requires Printable(n) && FloatFree(n)
    ensures WriteNode(n, level).ok <==> Passes(n, level)
  {
    hide Indent, OpeningLine, SettingLine, ValuesPass;
    match n
    case Section(key, _) => OpeningWritten(key, level);
    case Setting(key, values) => SettingWritten(key, values, level);
  }

  /** The printer reports an error exactly when a fragment of a top-level node is too long; those below go unseen. */
  lemma {:induction false} ForestOkIff(ns: seq<Node>, level: nat)
    requires AllPrintable(ns) && AllFloatFree(ns)
    ensures WriteForest(ns, level).ok <==> AllPass(ns, level)
    decreases |ns|
  {
    if ns != [] {
      hide WriteNode, Passes;
      NodeOkIff(ns[0], level);
      ForestOkIff(ns[1..], level);
    }
  }

  // ----- strings without their closing quote -----

  lemma {:induction false} UnquotedAfterQuoted(s: string, x: string, orig: char, quote: char)
    ensures Unquoted(Quoted(s, orig, quote, true) + x, orig, quote) == s + Unquoted(x, orig, quote)
  {
    hide Unquoted;
    if s == "" {
      assert "" + x == x && "" + Unquoted(x, orig, quote) == Unquoted(x, orig, quote);
    } else {
      UnquotedAfterQuoted(s[1..], x, orig, quote);
      var q1 := Quoted(s[1..], orig, quote, true) + x;
      UnquotedFirst(s[0], q1, orig, quote);
      var first := if Quotable(s[0], orig, quote, true) then [quote, s[0]] else [s[0]];
      assert Quoted(s, orig, quote, true) + x == first + q1;
      assert [s[0]] + (s[1..] + Unquoted(x, orig, quote)) == s + Unquoted(x, orig, quote);
    }
  }

  lemma UnquotedFirst(c: char, q: string, orig: char, quote: char)
    ensures Unquoted((if Quotable(c, orig, quote, true) then [quote, c] else [c]) + q, orig, quote)
         == [c] + Unquoted(q, orig, quote)
  {
    assert ([quote, c] + q)[2..] == q && ([c] + q)[1..] == q;
  }

  lemma {:induction false} OpenStringLen(s: string, u: string)
    requires NulFree(s)
    ensures StringLen(EscapeDoubleQuotes(s) + u) == |EscapeDoubleQuotes(s)| + StringLen(u)
  {
    var e := EscapeDoubleQuotes(s);
    if s == "" {
      assert e + u == u;
    } else {
      var e1 := EscapeDoubleQuotes(s[1..]);
      OpenStringLen(s[1..], u);
      if Quotable(s[0], '\"', '\\', true) {
        assert e == ['\\', s[0]] + e1;
        assert (e + u)[2..] == e1 + u;
      } else {
        assert e == [s[0]] + e1;
        assert (e + u)[1..] == e1 + u;
      }
    }
  }

  /** What may follow the cut string: not a quote, and not the end. */
  ghost predicate Follows(u: string) {
    u != "" && u[0] in {',', ']', '\n'}
  }

  lemma UnescapeAfterEscape(s: string, x: string)
    ensures UnescapeDoubleQuotes(EscapeDoubleQuotes(s) + x) == s + UnescapeDoubleQuotes(x)
  {
    UnquotedAfterQuoted(s, x, '\"', '\\');
  }

  lemma FollowsLen(u: string)
    requires Follows(u)
    ensures 1 <= StringLen(u) && (|u| > 1 && u[1] != NUL ==> StringLen(u) > 1)
  {
  }

  /** The token of a string that was not closed. */
  function OpenToken(s: string, u: string): Token
    requires Follows(u)
  {
    Token(TStringEscaped, "\"" + EscapeDoubleQuotes(s) + u[..StringLen(u)], u[StringLen(u)..])
  }

  /** It takes in what follows up to the next quote or the end of the text. */
  lemma OpenString(s: string, u: string, b: bool)
    requires NulFree(s) && Follows(u)
    ensures Lex("\"" + EscapeDoubleQuotes(s) + u, b) == OpenToken(s, u)
  {
    hide EscapeDoubleQuotes, StringLen, SingleQuotedLen, NumberTail, IdentifierLen, CommentLen, Follows;
    var k, e := StringLen(u), EscapeDoubleQuotes(s);
    var w := "\"" + e + u;
    OpenStringLen(s, u);
    assert w[0] == '\"' && w[1..] == e + u;
    assert SkipSpace(w) == w;
    assert TokenAt(w, b) == (TStringEscaped, 1 + |e| + k);
    assert w[..1 + |e| + k] == "\"" + e + u[..k] && w[1 + |e| + k..] == u[k..];
  }

  lemma InsideOpen(e: string, u: string, k: nat)
    requires 1 <= k <= |u|
    ensures |"\"" + e + u[..k]| >= 2 && Inside("\"" + e + u[..k]) == e + u[..k-1]
  {
  }

  /** Its last character is taken for the closing quote. */
  lemma OpenStringValue(s: string, u: string)
    requires NulFree(s) && Follows(u)
    ensures 1 <= StringLen(u)
    ensures ParseType(OpenToken(s, u))
         == Ok(Str(s + UnescapeDoubleQuotes(u[..StringLen(u) - 1])), Lex(u[StringLen(u)..], false))
  {
    FollowsLen(u);
    hide StringLen, Lex, EscapeDoubleQuotes, UnescapeDoubleQuotes, Follows;
    var k := StringLen(u);
    InsideOpen(EscapeDoubleQuotes(s), u, k);
    hide Inside;
    UnescapeAfterEscape(s, u[..k-1]);
  }

  /** If anything but one character follows, the string comes back longer than it was. */
  lemma OpenStringDiffers(s: string, u: string, b: bool)
    requires NulFree(s) && Follows(u) && |u| > 1 && u[1] != NUL
    ensures var t := Lex("\"" + EscapeDoubleQuotes(s) + u, b);
            t.kind == TStringEscaped && ParseType(t).Ok? && ParseType(t).value != Str(s)
  {
    FollowsLen(u);
    OpenString(s, u, b);
    OpenStringValue(s, u);
    hide Lex, ParseType, StringLen, EscapeDoubleQuotes;
    var x := u[..StringLen(u) - 1];
    assert x != "";
    assert |s + UnescapeDoubleQuotes(x)| > |s|;
  }

  /** At the very end only the final newline is taken in, and stripped again. */
  lemma OpenStringAtEnd(s: string)
    requires NulFree(s)
    ensures ParseValue(Lex("\"" + EscapeDoubleQuotes(s) + "\n", true)) == Ok([Str(s)], Token(TEof, "", ""))
  {
    hide EscapeDoubleQuotes;
    assert StringLen("\n") == 1 + StringLen("");
    OpenString(s, "\n", true);
    OpenStringValue(s, "\n");
    assert "\n"[..0] == "" && "\n"[1..] == "" && s + "" == s;
  }

  // ----- values -----

  function Pow10(k: nat): nat {
    if k == 0 then 1 else 10 * Pow10(k - 1)
  }

  lemma {:induction false} DecimalLength(n: nat, k: nat)
    requires k > 0 && n < Pow10(k)
    ensures |Decimal(n)| <= k
  {
    if n >= 10 { DecimalLength(n / 10, k - 1); }
  }

  /** Only strings can be too long. */
  lemma OthersFit(v: Value)
    requires PrintableElement(v) && !FragmentFits(ValueText(v))
    ensures v.Str?
  {
    if v.Int? {
      assert Pow10(10) == 10_000_000_000;
      assert Pow10(15) == 1_000_000_000_000_000;
      assert Pow10(20) == 100_000_000_000_000_000_000;
      DecimalLength(if v.i < 0 then -v.i else v.i, 20);
    }
  }

  lemma CutString(v: Value)
    requires v.Str? && |ValueText(v)| == FRAGMENT_SIZE
    ensures Cut(ValueText(v)) == "\"" + EscapeDoubleQuotes(v.s)
  {
    hide EscapeDoubleQuotes;
  }

  /** Where one element is cut, another one is read. */
  lemma CutElementDiffers(v: Value, u: string)
    requires PrintableElement(v) && |ValueText(v)| == FRAGMENT_SIZE && Follows(u) && |u| > 1 && u[1] != NUL
    ensures var t := Lex(Cut(ValueText(v)) + u, true);
            t.kind == TStringEscaped && ParseType(t).Ok? && ParseType(t).value != v
  {
    hide Lex, ParseType;
    OthersFit(v);
    CutString(v);
    OpenStringDiffers(v.s, u, true);
  }

  lemma FirstElementDiffers(t: Token, vs: seq<Value>)
    requires vs != [] && Progresses(t) && t.kind == TStringEscaped && ParseType(t).Ok? && ParseType(t).value != vs[0]
    ensures ParseElements(t).Ok? ==> ParseElements(t).value != vs
  {
    hide ParseType;
  }

  lemma {:induction false} ElementsDiffer(vs: seq<Value>, t: string)
    requires vs != [] && PrintableElements(vs) && ValuesPass(vs) && !ValuesFit(vs)
    requires t != "" && t[0] != NUL
    ensures var r := ParseElements(Lex(CutElements(vs) + "]" + t, true)); r.Ok? ==> r.value != vs
    decreases |vs|, 1
  {
    hide Lex, ValueText, ParseType, ParseElements, Cut;
    var v := vs[0];
    if FragmentFits(ValueText(v)) {
      FittingElement(vs, t);
    } else {
      var u := if |vs| > 1 then ", " + CutElements(vs[1..]) + "]" + t else "]" + t;
      assert CutElements(vs) + "]" + t == Cut(ValueText(v)) + u;
      CutElementDiffers(v, u);
      FirstElementDiffers(Lex(Cut(ValueText(v)) + u, true), vs);
    }
  }

  /** The elements after one that fits. */
  lemma {:induction false} FittingElement(vs: seq<Value>, t: string)
    requires vs != [] && PrintableElements(vs) && ValuesPass(vs) && !ValuesFit(vs) && FragmentFits(ValueText(vs[0]))
    requires t != "" && t[0] != NUL
    ensures var r := ParseElements(Lex(CutElements(vs) + "]" + t, true)); r.Ok? ==> r.value != vs
    decreases |vs|, 0
  {
    hide Lex, ValueText, ParseElements;
    var v, rest := vs[0], vs[1..];
    assert forall i :: 0 <= i < |rest| ==> rest[i] == vs[i+1];
    assert !ValuesFit(rest) && rest != [];
    var r := CutElements(rest) + "]" + t;
    assert CutElements(vs) + "]" + t == ValueText(v) + ", " + r;
    ElementThenMore(v, r);
    ElementsDiffer(rest, t);
    assert vs == [v] + rest;
  }

  /** What follows a printed node, unless it is the last of the text. */
  ghost predicate More(t: string) {
    t != "" && t[0] != NUL
  }

  lemma ArrayDiffers(vs: seq<Value>, u: string)
    requires |vs| > 1 && PrintableElements(vs) && ValuesPass(vs) && !ValuesFit(vs) && More(u)
    ensures var r := ParseValue(Lex("[" + CutElements(vs) + "]" + u, true)); r.Ok? ==> r.value != vs
  {
    hide Lex, TokenAt, ParseElements, CutElements, ValuesFit, ValuesPass;
    var e := CutElements(vs) + "]" + u;
    assert "[" + CutElements(vs) + "]" + u == ['['] + e;
    LexPunctuation('[', e, true);
    PunctuationKinds();
    ElementsDiffer(vs, u);
  }

  lemma SingleDiffers(v: Value, u: string)
    requires PrintableElement(v) && |ValueText(v)| == FRAGMENT_SIZE && Follows(u) && |u| > 1 && u[1] != NUL
    ensures var r := ParseValue(Lex(Cut(ValueText(v)) + u, true)); r.Ok? ==> r.value != [v]
  {
    hide Lex, ParseType, Cut, ValueText;
    CutElementDiffers(v, u);
  }

  lemma ValuesDiffer(vs: seq<Value>, t: string)
    requires PrintableValues(vs) && ValuesPass(vs) && !ValuesFit(vs) && (|vs| > 1 || More(t))
    ensures var r := ParseValue(Lex(CutValues(vs) + "\n" + t, true)); r.Ok? ==> r.value != vs
  {
    hide Lex, ParseValue, Cut, CutElements, ValueText;
    var u := "\n" + t;
    assert CutValues(vs) + "\n" + t == CutValues(vs) + u;
    if |vs| > 1 {
      ArrayDiffers(vs, u);
    } else {
      EmptyArrayText();
      SingleDiffers(vs[0], u);
      assert vs == [vs[0]];
    }
  }

  lemma EmptyArrayText()
    ensures ValueText(EmptyArray) == "[]"
  {
  }

  // ----- nodes -----

  function Shorter(key: string): string
    requires key != ""
  {
    key[..|key| - 1]
  }

  /** A key that is cut loses its last character and stays a key. */
  lemma CutKey(key: string, level: nat)
    requires LegalKey(key) && |Indent(level) + key| == FRAGMENT_SIZE
    ensures LegalKey(Shorter(key)) && Cut(Indent(level) + key) == Indent(level) + Shorter(key)
  {
    IndentIsShort(level);
    hide Indent;
  }

  /** The key as it comes out. */
  function PrintedKey(key: string, level: nat): string
    requires key != ""
  {
    if |Indent(level) + key| == FRAGMENT_SIZE then Shorter(key) else key
  }

  lemma PrintedKeyIs(key: string, level: nat)
    requires LegalKey(key)
    ensures LegalKey(PrintedKey(key, level)) && Cut(Indent(level) + key) == Indent(level) + PrintedKey(key, level)
    ensures PrintedKey(key, level) == key <==> |Indent(level) + key| != FRAGMENT_SIZE
  {
    hide Indent;
    if |Indent(level) + key| == FRAGMENT_SIZE { CutKey(key, level); }
  }

  function Closing(level: nat, t: string): string {
    Indent(level) + "}\n" + t
  }

  /** The printed body of a section, closing line included. */
  function BodyText(ns: seq<Node>, level: nat, t: string): string
    requires AllFloatFree(ns)
  {
    Joined(WriteForest(ns, level + 1).lines) + Closing(level, t)
  }

  lemma SectionWritten(key: string, children: seq<Node>, level: nat, t: string)
    requires LegalKey(key) && AllFloatFree(children) && WriteNode(Section(key, children), level).ok
    ensures Joined(WriteNode(Section(key, children), level).lines) + t
         == Indent(level) + PrintedKey(key, level) + " {\n" + BodyText(children, level, t)
  {
    hide Indent, WriteForest, PrintedKey, Cut, Joined;
    OpeningWritten(key, level);
    PrintedKeyIs(key, level);
    var head, tail := [OpeningLine(key, level).text], [Indent(level) + "}"];
    var inner := WriteForest(children, level + 1).lines;
    assert WriteNode(Section(key, children), level).lines == head + inner + tail;
    JoinedConcat(head + inner, tail);
    JoinedConcat(head, inner);
    JoinedOne(head[0]);
    JoinedOne(tail[0]);
  }

  lemma SettingNodeWritten(key: string, values: seq<Value>, level: nat, t: string)
    requires LegalKey(key) && PrintableValues(values) && WriteNode(Setting(key, values), level).ok
    ensures ValuesPass(values)
    ensures Joined(WriteNode(Setting(key, values), level).lines) + t
         == Indent(level) + PrintedKey(key, level) + "=" + (CutValues(values) + "\n" + t)
  {
    hide Indent, PrintedKey, Cut, CutValues;
    SettingWritten(key, values, level);
    PrintedKeyIs(key, level);
    JoinedOne(SettingLine(key, values, level).text);
  }

  /** Every printed node starts with a key. */
  lemma NodeStarts(n: Node, level: nat, t: string)
    requires Printable(n) && FloatFree(n) && WriteNode(n, level).ok
    ensures var s := Joined(WriteNode(n, level).lines) + t; More(s) && Lex(s, false).kind == TIdentifier
  {
    hide Indent, WriteNode, Lex, TokenAt, PrintedKey, BodyText, CutValues, Joined;
    var w;
    match n {
      case Section(key, children) =>
        SectionWritten(key, children, level, t);
        w := " {\n" + BodyText(children, level, t);
      case Setting(key, values) =>
        SettingNodeWritten(key, values, level, t);
        w := "=" + (CutValues(values) + "\n" + t);
    }
    var key := PrintedKey(n.key, level);
    PrintedKeyIs(n.key, level);
    var s := Joined(WriteNode(n, level).lines) + t;
    assert s == Indent(level) + (key + w);
    LexIndent(level, key + w);
    LexKey(key, w);
    IndentHasNoNul(level);
    assert s[0] == if |Indent(level)| > 0 then Indent(level)[0] else key[0];
  }

  lemma IndentHasNoNul(level: nat)
    ensures NulFree(Indent(level))
  {
  }

  /** A node that does not fit is read back as another one, if at all, unless it ends the text. */
  lemma {:induction false} NodeDiffers(n: Node, level: nat, t: string)
    requires Printable(n) && FloatFree(n) && WriteNode(n, level).ok && !Fits(n, level)
    requires More(t) || !(n.Setting? && |n.values| == 1) || !FragmentFits(Indent(level) + n.key)
    ensures var r := ParseSection(Lex(Joined(WriteNode(n, level).lines) + t, false)); r.Ok? ==> r.value != n
    decreases n, 1
  {
    hide Indent, WriteNode, Lex, ParseSection, ParseBody, ParseValue, BodyText, CutValues, Joined, ValuesFit;
    PrintedKeyIs(n.key, level);
    NodeOkIff(n, level);
    hide PrintedKey;
    var key := PrintedKey(n.key, level);
    match n
    case Section(_, children) =>
      SectionWritten(n.key, children, level, t);
      SectionFromBody(key, level, BodyText(children, level, t));
      if key == n.key { BodyDiffers(children, level, t); }
    case Setting(_, values) =>
      SettingNodeWritten(n.key, values, level, t);
      SettingFromValue(key, level, CutValues(values) + "\n" + t);
      if key == n.key { ValuesDiffer(values, t); }
  }

  lemma BodyTextStep(ns: seq<Node>, level: nat, t: string)
    requires ns != [] && AllFloatFree(ns)
    ensures var w := WriteNode(ns[0], level + 1);
            BodyText(ns, level, t) ==
            if w.ok then Joined(w.lines) + BodyText(ns[1..], level, t) else Joined(w.lines) + BodyText([], level, t)
  {
    hide WriteNode, Joined, Closing;
    var w, rest := WriteNode(ns[0], level + 1), WriteForest(ns[1..], level + 1);
    if w.ok {
      JoinedConcat(w.lines, rest.lines);
    } else {
      EmptyBodyStarts(level, t);
    }
  }

  lemma FailedIsEmpty(n: Node, level: nat)
    requires FloatFree(n) && !WriteNode(n, level).ok
    ensures WriteNode(n, level).lines == []
  {
  }

  /** The closing line alone is an empty body. */
  lemma EmptyBody(level: nat, t: string)
    ensures ParseBody(Lex(BodyText([], level, t), false)) == Ok([], Lex(t, false))
  {
    hide Lex, ParseBody, Indent;
    assert BodyText([], level, t) == ForestText([], level + 1) + Indent(level) + "}\n" + t;
    BodyParsesBack([], level, t);
  }

  lemma {:induction false} BodyStarts(ns: seq<Node>, level: nat, t: string)
    requires AllPrintable(ns) && AllFloatFree(ns)
    ensures More(BodyText(ns, level, t))
  {
    hide WriteNode, BodyText, Indent;
    if ns != [] && WriteNode(ns[0], level + 1).ok {
      BodyTextStep(ns, level, t);
      NodeStarts(ns[0], level + 1, BodyText(ns[1..], level, t));
    } else {
      if ns != [] {
        BodyTextStep(ns, level, t);
        FailedIsEmpty(ns[0], level + 1);
      }
      EmptyBodyStarts(level, t);
    }
  }

  lemma EmptyBodyStarts(level: nat, t: string)
    ensures More(BodyText([], level, t)) && BodyText([], level, t) == Closing(level, t) && Joined([]) == ""
  {
    IndentHasNoNul(level);
  }

  lemma {:induction false} BodyDiffers(ns: seq<Node>, level: nat, t: string)
    requires AllPrintable(ns) && AllFloatFree(ns) && !AllFit(ns, level + 1)
    ensures var r := ParseBody(Lex(BodyText(ns, level, t), false)); r.Ok? ==> r.value != ns
    decreases ns, 0
  {
    hide WriteNode, BodyText, Lex, ParseSection, Fits, Joined, NodeText;
    BodyTextStep(ns, level, t);
    var n, rest := ns[0], BodyText(ns[1..], level, t);
    if !WriteNode(n, level + 1).ok {
      FailedIsEmpty(n, level + 1);
      EmptyBodyStarts(level, t);
      assert "" + BodyText([], level, t) == BodyText([], level, t);
      EmptyBody(level, t);
    } else {
      NodeStarts(n, level + 1, rest);
      if Fits(n, level + 1) {
        NodePrinted(n, level + 1);
        NodeParsesBack(n, level + 1, rest);
        BodyDiffers(ns[1..], level, t);
      } else {
        BodyStarts(ns[1..], level, t);
        NodeDiffers(n, level + 1, rest);
      }
    }
  }

  // ----- whole texts -----

  /** The string of the node is cut, and that is all that happens to it. */
  ghost predicate OnlyQuoteLost(n: Node) {
    && n.Setting? && |n.values| == 1 && n.values[0].Str?
    && |ValueText(n.values[0])| == FRAGMENT_SIZE && FragmentFits(Indent(0) + n.key)
  }

  ghost predicate Survives(ns: seq<Node>)
    requires AllFloatFree(ns)
  {
    if ns == [] then true
    else if |ns| == 1 then Fits(ns[0], 0) || OnlyQuoteLost(ns[0])
    else Fits(ns[0], 0) && Survives(ns[1..])
  }

  function FileText(ns: seq<Node>): string
    requires AllFloatFree(ns)
  {
    Joined(WriteForest(ns, 0).lines)
  }

  lemma TextStep(ns: seq<Node>)
    requires ns != [] && AllFloatFree(ns) && WriteNode(ns[0], 0).ok
    ensures FileText(ns) == Joined(WriteNode(ns[0], 0).lines) + FileText(ns[1..])
    ensures WriteForest(ns, 0).ok == WriteForest(ns[1..], 0).ok
  {
    hide WriteNode, Joined;
    JoinedConcat(WriteNode(ns[0], 0).lines, WriteForest(ns[1..], 0).lines);
  }

  lemma FileStarts(ns: seq<Node>)
    requires ns != [] && AllPrintable(ns) && AllFloatFree(ns) && WriteForest(ns, 0).ok
    ensures More(FileText(ns))
  {
    hide WriteNode, FileText;
    TextStep(ns);
    NodeStarts(ns[0], 0, FileText(ns[1..]));
  }

  lemma FileOf(t: Token)
    requires t.kind == TIdentifier && Progresses(t)
    ensures ParseSection(t).Err? ==> ParseFile(t).Err?
    ensures ParseSection(t).Ok? ==> ParseFile(t) == Listed(ParseSection(t).value, ParseFile(ParseSection(t).next))
  {
    hide ParseSection;
  }

  function Listed(n: Node, r: Parsed<seq<Node>>): Parsed<seq<Node>> {
    match r
    case Err => Err
    case Ok(ns, t) => Ok([n] + ns, t)
  }

  lemma {:induction false} FileDiffers(ns: seq<Node>)
    requires AllPrintable(ns) && AllFloatFree(ns) && WriteForest(ns, 0).ok && !Survives(ns)
    ensures var r := ParseFile(Lex(FileText(ns), false)); r.Ok? ==> r.value != ns
  {
    hide WriteNode, FileText, Lex, ParseSection, ParseFile, Joined, NodeText, Fits;
    var n, rest := ns[0], FileText(ns[1..]);
    TextStep(ns);
    NodeStarts(n, 0, rest);
    FileOf(Lex(Joined(WriteNode(n, 0).lines) + rest, false));
    if Fits(n, 0) {
      NodePrinted(n, 0);
      NodeParsesBack(n, 0, rest);
      FileDiffers(ns[1..]);
    } else {
      if |ns| > 1 {
        FileStarts(ns[1..]);
      } else {
        OnlyOneWayOut(n);
      }
      NodeDiffers(n, 0, rest);
    }
  }

  /** A top-level node that is printed, does not fit and has lost more than its last quote. */
  lemma OnlyOneWayOut(n: Node)
    requires Printable(n) && FloatFree(n) && WriteNode(n, 0).ok && !Fits(n, 0) && !OnlyQuoteLost(n)
    ensures !(n.Setting? && |n.values| == 1) || !FragmentFits(Indent(0) + n.key)
  {
    hide WriteNode, Indent, ValueText;
    NodeOkIff(n, 0);
    if n.Setting? && |n.values| == 1 && FragmentFits(Indent(0) + n.key) {
      EmptyArrayText();
      OthersFit(n.values[0]);
    }
  }

  /** The string at the very end. */
  lemma LastString(n: Node)
    requires Printable(n) && FloatFree(n) && OnlyQuoteLost(n)
    ensures WriteNode(n, 0).ok
    ensures ParseSection(Lex(Joined(WriteNode(n, 0).lines), false)) == Ok(n, Token(TEof, "", ""))
  {
    hide WriteNode, Lex, ParseSection, ParseValue, Joined, Indent, ValueText;
    var v := n.values[0];
    assert n.values == [v];
    NodeOkIff(n, 0);
    PrintedKeyIs(n.key, 0);
    SettingNodeWritten(n.key, n.values, 0, "");
    CutString(v);
    var u := Cut(ValueText(v)) + "\n";
    assert Joined(WriteNode(n, 0).lines) + "" == Joined(WriteNode(n, 0).lines) && u + "" == u;
    SettingFromValue(n.key, 0, u);
    OpenStringAtEnd(v.s);
  }

  lemma ReadOn(ns: seq<Node>)
    requires ns != [] && AllPrintable(ns) && AllFloatFree(ns) && WriteNode(ns[0], 0).ok && WriteForest(ns[1..], 0).ok
    requires ParseSection(Lex(Joined(WriteNode(ns[0], 0).lines) + FileText(ns[1..]), false))
          == Ok(ns[0], Lex(FileText(ns[1..]), false))
    requires ParseFile(Lex(FileText(ns[1..]), false)) == Ok(ns[1..], Token(TEof, "", ""))
    ensures WriteForest(ns, 0).ok && ParseFile(Lex(FileText(ns), false)) == Ok(ns, Token(TEof, "", ""))
  {
    hide WriteNode, FileText, Lex, ParseSection, ParseFile, Joined;
    var text := Joined(WriteNode(ns[0], 0).lines) + FileText(ns[1..]);
    TextStep(ns);
    NodeStarts(ns[0], 0, FileText(ns[1..]));
    FileOf(Lex(text, false));
    assert ns == [ns[0]] + ns[1..];
  }

  lemma {:induction false} FileSurvives(ns: seq<Node>)
    requires AllPrintable(ns) && AllFloatFree(ns) && Survives(ns)
    ensures WriteForest(ns, 0).ok && ParseFile(Lex(FileText(ns), false)) == Ok(ns, Token(TEof, "", ""))
  {
    NothingLeft();
    if ns != [] {
      hide WriteNode, FileText, Lex, ParseSection, ParseFile, Joined, NodeText, Fits;
      var n, rest := ns[0], FileText(ns[1..]);
      if Fits(n, 0) {
        NodePrinted(n, 0);
        NodeParsesBack(n, 0, rest);
        FileSurvives(ns[1..]);
      } else {
        LastString(n);
        assert ns[1..] == [];
        assert Joined(WriteNode(n, 0).lines) + "" == Joined(WriteNode(n, 0).lines);
      }
      ReadOn(ns);
    }
  }

  lemma NothingLeft()
    ensures FileText([]) == "" && WriteForest([], 0).ok && Lex("", false) == Token(TEof, "", "")
    ensures ParseFile(Token(TEof, "", "")) == Ok([], Token(TEof, "", ""))
  {
  }

  lemma {:induction false} SurvivesMeans(ns: seq<Node>)
    requires ns != [] && AllFloatFree(ns)
    ensures AllFloatFree(ns[..|ns| - 1]) && FloatFree(ns[|ns| - 1])
    ensures Survives(ns) <==>
            AllFit(ns[..|ns| - 1], 0) && (Fits(ns[|ns| - 1], 0) || OnlyQuoteLost(ns[|ns| - 1]))
  {
    hide Fits, OnlyQuoteLost;
    var front := ns[..|ns| - 1];
    if |ns| > 1 {
      SurvivesMeans(ns[1..]);
      assert front[1..] == ns[1..][..|ns| - 2] && front[0] == ns[0];
    }
  }

  /**
  What is printed is read back if and only if every fragment fits, except that the last node of
  the text may be a single string that loses its closing quote.
  */
  lemma PrintedRoundTripIff(ns: seq<Node>)
    requires ns != [] && AllPrintable(ns)
    ensures AllFloatFree(ns) && AllFloatFree(ns[..|ns| - 1]) && FloatFree(ns[|ns| - 1])
    ensures (WriteForest(ns, 0).ok && Parse(Joined(WriteForest(ns, 0).lines)) == Forest(ns))
       <==> Survives(ns)
    ensures Survives(ns) <==> AllFit(ns[..|ns| - 1], 0) && (Fits(ns[|ns| - 1], 0) || OnlyQuoteLost(ns[|ns| - 1]))
  {
    AllPrintableIsFloatFree(ns);
    SurvivesMeans(ns);
    hide WriteForest, Lex, ParseFile, Fits, OnlyQuoteLost, Survives, AllFit;
    if Survives(ns) {
      FileSurvives(ns);
    } else if WriteForest(ns, 0).ok {
      FileDiffers(ns);
    }
  }

  // ----- what the lines look like -----

  /** Indentation is by tabs, one for each level up to thirty-two. */
  lemma IndentIs(level: nat)
    ensures |Indent(level)| == (if level < 32 then level else 32)
    ensures forall i :: 0 <= i < |Indent(level)| ==> Indent(level)[i] == '\t'
  {
  }

  lemma SingleLine(key: string, v: Value, level: nat)
    requires !v.Float? && |Indent(level) + key| < FRAGMENT_SIZE && |ValueText(v)| < FRAGMENT_SIZE
    ensures SettingLine(key, [v], level) == Line(Indent(level) + key + "=" + ValueText(v))
  {
    hide Indent, ValueText;
    assert "" + (Indent(level) + key) == Indent(level) + key;
  }

  lemma PairLine(key: string, v: Value, w: Value, level: nat)
    requires !v.Float? && !w.Float? && v != EmptyArray && w != EmptyArray && |Indent(level) + key| < FRAGMENT_SIZE
    requires |ValueText(v)| < FRAGMENT_SIZE && |ValueText(w)| < FRAGMENT_SIZE
    ensures SettingLine(key, [v, w], level) ==
            Line(Indent(level) + key + "=" + "[" + ValueText(v) + ", " + ValueText(w) + "]")
  {
    hide Indent, ValueText;
    var vs := [v, w];
    assert vs[1..] == [w] && [w][1..] == [];
    assert "" + (Indent(level) + key) == Indent(level) + key;
    var l := Line(Indent(level) + key + "=" + "[");
    assert Append(Append(Append(Line(""), Indent(level) + key), "="), "[") == l;
    assert AppendElements(l, vs) == Append(Append(Append(l, ValueText(v)), ", "), ValueText(w));
  }

  lemma SignedIsShort(n: int)
    requires INT64_MIN <= n <= INT64_MAX
    ensures |Signed(n)| < 1000
  {
    assert Pow10(10) == 10_000_000_000;
    assert Pow10(15) == 1_000_000_000_000_000;
    assert Pow10(20) == 100_000 * Pow10(15);
    DecimalLength(if n < 0 then -n else n, 20);
  }

  /** A section with a single value and an array in it, line by line. */
  lemma PrintedLooks(section: string, key1: string, n: int, key2: string, s: string, m: int)
    requires |section| < 1000 && |key1| < 1000 && |key2| < 1000 && |EscapeDoubleQuotes(s)| < 1000
    requires INT64_MIN <= n <= INT64_MAX && INT64_MIN <= m <= INT64_MAX
    ensures var ns := [Section(section, [Setting(key1, [Int(n)]), Setting(key2, [Str(s), Int(m)])])];
      AllFloatFree(ns) &&
      WriteForest(ns, 0) ==
      Printed(true, [section + " {",
                     "\t" + key1 + "=" + Signed(n),
                     "\t" + key2 + "=[\"" + EscapeDoubleQuotes(s) + "\", " + Signed(m) + "]",
                     "}"])
  {
    SignedIsShort(n);
    SignedIsShort(m);
    IndentIs(0);
    IndentIs(1);
    assert Indent(0) == "" && Indent(1) == "\t";
    hide Signed, EscapeDoubleQuotes, Indent, SettingLine, WriteForest, AllFloatFree;
    SingleLine(key1, Int(n), 1);
    PairLine(key2, Str(s), Int(m), 1);
    PairText("\t" + key2, EscapeDoubleQuotes(s), Signed(m));
    SectionLines(section, Setting(key1, [Int(n)]), Setting(key2, [Str(s), Int(m)]), "\t" + key1 + "=" + Signed(n),
                 "\t" + key2 + "=[\"" + EscapeDoubleQuotes(s) + "\", " + Signed(m) + "]");
  }

  lemma PairText(key: string, s: string, m: string)
    ensures key + "=" + "[" + ("\"" + s + "\"") + ", " + m + "]" == key + "=[\"" + s + "\", " + m + "]"
  {
  }

  lemma SectionLines(section: string, a: Node, b: Node, x: string, y: string)
    requires a.Setting? && b.Setting? && a.values != [] && b.values != [] && NoFloats(a.values) && NoFloats(b.values)
    requires |section| < 1000 && Indent(0) == ""
    requires SettingLine(a.key, a.values, 1) == Line(x) && SettingLine(b.key, b.values, 1) == Line(y)
    ensures var ns := [Section(section, [a, b])];
      AllFloatFree(ns) && WriteForest(ns, 0) == Printed(true, [section + " {", x, y, "}"])
  {
    hide SettingLine, Indent;
    var kids, ns := [a, b], [Section(section, [a, b])];
    assert kids[1..] == [b] && [b][1..] == [] && ns[1..] == [];
    assert FloatFree(a) && FloatFree(b) && AllFloatFree([b]) && AllFloatFree(kids) && FloatFree(ns[0]);
    assert WriteNode(a, 1) == Printed(true, [x]) && WriteNode(b, 1) == Printed(true, [y]);
    assert WriteForest([], 1) == Printed(true, []) && WriteForest([b], 1).lines == [y] + [];
    assert WriteForest(kids, 1).lines == [x] + [y];
    assert OpeningLine(section, 0) == Line(section + " {");
    assert Indent(0) + "}" == "}";
  }
}
