/** What the parser accepts is printable, so parsing, printing and parsing again changes nothing. */
module ConfigNormal {
  import opened Escaping
  import opened ConfigText
  import opened ConfigRoundTrip

  /** What every token of the tokeniser satisfies. */
  ghost predicate Genuine(t: Token) {
    && Progresses(t)
    && (t.kind == TIdentifier ==> LegalKey(t.lexeme))
    && (t.kind == TString || t.kind == TStringEscaped ==> NulFree(t.lexeme))
  }

  lemma {:induction false} StringHasNoNul(s: string)
    ensures NulFree(s[..StringLen(s)])
    decreases |s|
  {
    if s == "" || s[0] == NUL || s[0] == '\"' {
    } else if s[0] == '\\' && |s| > 1 && s[1] != NUL {
      StringHasNoNul(s[2..]);
      assert s[..StringLen(s)] == s[..2] + s[2..][..StringLen(s[2..])];
    } else {
      StringHasNoNul(s[1..]);
      assert s[..StringLen(s)] == s[..1] + s[1..][..StringLen(s[1..])];
    }
  }

  lemma {:induction false} SingleQuotedHasNoNul(s: string)
    ensures NulFree(s[..SingleQuotedLen(s)])
  {
    if s != "" && s[0] != NUL && s[0] != '\'' {
      SingleQuotedHasNoNul(s[1..]);
      assert s[..SingleQuotedLen(s)] == s[..1] + s[1..][..SingleQuotedLen(s[1..])];
    }
  }

  lemma {:induction false} IdentifierHasNoEnd(s: string)
    ensures forall i :: 0 <= i < IdentifierLen(s) ==> !EndsIdentifier(s[i])
  {
    if s != "" && !EndsIdentifier(s[0]) {
      IdentifierHasNoEnd(s[1..]);
      assert forall i :: 1 <= i < IdentifierLen(s) ==> s[i] == s[1..][i-1];
    }
  }

  lemma LexIsGenuine(s: string, b: bool)
    ensures Genuine(Lex(s, b))
  {
    var u := SkipSpace(s);
    if u != "" && u[0] != NUL {
      hide StringLen, SingleQuotedLen, IdentifierLen, SkipSpace, NumberTail;
      StringHasNoNul(u[1..]);
      SingleQuotedHasNoNul(u[1..]);
      IdentifierHasNoEnd(u);
      var n := TokenAt(u, b).1;
      assert u[..n] == [u[0]] + u[1..][..n-1];
    }
  }

  lemma TypeIsPrintable(t: Token)
    requires Genuine(t)
    ensures var r := ParseType(t);
            r.Ok? ==> Genuine(r.next) && (PrintableElement(r.value) || r.value.Float?)
  {
    LexIsGenuine(t.rest, ValuesAllowed(t.kind));
    if (t.kind == TString || t.kind == TStringEscaped) && |t.lexeme| >= 2 {
      UnquotedNulFree(Inside(t.lexeme), '\"', '\\');
    }
  }

  ghost predicate Elementary(vs: seq<Value>) {
    forall i :: 0 <= i < |vs| ==> PrintableElement(vs[i]) || vs[i].Float?
  }

  lemma {:induction false} ElementsArePrintable(t: Token)
    requires Genuine(t)
    ensures var r := ParseElements(t);
            r.Ok? ==> Genuine(r.next) && Elementary(r.value)
    decreases Size(t)
  {
    hide Lex, ParseType;
    if t.kind == TArrayE {
      LexIsGenuine(t.rest, ValuesAllowed(t.kind));
    } else {
      TypeIsPrintable(t);
      var r := ParseType(t);
      if r.Ok? {
        LexIsGenuine(r.next.rest, ValuesAllowed(r.next.kind));
        ElementsArePrintable(SkipComma(r.next));
      }
    }
  }

  lemma ValueIsPrintable(t: Token)
    requires Genuine(t)
    ensures var r := ParseValue(t);
            r.Ok? ==> Genuine(r.next) && (NoFloats(r.value) ==> PrintableValues(r.value))
  {
    hide Lex, ParseElements, ParseType;
    if t.kind == TArrayB {
      LexIsGenuine(t.rest, ValuesAllowed(t.kind));
      ElementsArePrintable(Next(t));
    } else {
      TypeIsPrintable(t);
    }
  }

  lemma {:induction false} SectionIsPrintable(t: Token)
    requires Genuine(t)
    ensures var r := ParseSection(t);
            r.Ok? ==> Genuine(r.next) && (FloatFree(r.value) ==> Printable(r.value))
    decreases Size(t), 0
  {
    hide Lex, ParseBody, ParseValue;
    if t.kind == TIdentifier {
      LexIsGenuine(t.rest, ValuesAllowed(t.kind));
      var t1 := Next(t);
      LexIsGenuine(t1.rest, ValuesAllowed(t1.kind));
      if t1.kind == TSectionB {
        BodyIsPrintable(Next(t1));
      } else if t1.kind == TEq {
        ValueIsPrintable(Next(t1));
      }
    }
  }

  lemma {:induction false} BodyIsPrintable(t: Token)
    requires Genuine(t)
    ensures var r := ParseBody(t);
            r.Ok? ==> Genuine(r.next) && (AllFloatFree(r.value) ==> AllPrintable(r.value))
    decreases Size(t), 1
  {
    hide Lex, ParseSection;
    if t.kind == TSectionE {
      LexIsGenuine(t.rest, ValuesAllowed(t.kind));
    } else {
      SectionIsPrintable(t);
      var r := ParseSection(t);
      if r.Ok? {
        BodyIsPrintable(r.next);
        var rest := ParseBody(r.next);
        if rest.Ok? { assert ([r.value] + rest.value)[1..] == rest.value; }
      }
    }
  }

  lemma {:induction false} FileIsPrintable(t: Token)
    requires Genuine(t)
    ensures var r := ParseFile(t);
            r.Ok? && AllFloatFree(r.value) ==> AllPrintable(r.value)
    decreases Size(t)
  {
    hide Lex, ParseSection;
    if t.kind != TEof {
      SectionIsPrintable(t);
      var r := ParseSection(t);
      if r.Ok? {
        FileIsPrintable(r.next);
        var rest := ParseFile(r.next);
        if rest.Ok? { assert ([r.value] + rest.value)[1..] == rest.value; }
      }
    }
  }

  /** Parsing, printing and parsing again gives the same forest, for every accepted text without floats. */
  lemma NormalForm(s: string)
    ensures var r := Parse(s);
            r.Forest? && AllFloatFree(r.nodes) ==> AllPrintable(r.nodes) && Parse(ForestText(r.nodes, 0)) == r
  {
    hide Lex, ParseFile;
    LexIsGenuine(s, false);
    FileIsPrintable(Lex(s, false));
    var r := Parse(s);
    if r.Forest? && AllFloatFree(r.nodes) {
      RoundTrip(r.nodes);
    }
  }
}
