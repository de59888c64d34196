/**
The tokeniser and recursive-descent parser of libdm-config.c as they run: positions moved
along the text, lists grown in loops.  Every method is proved equal to the function of
ConfigText that gives its meaning.
*/
module ConfigParser {
  import opened Escaping
  import opened ConfigText
  import opened ConfigRoundTrip
  import opened ConfigPrint
  import opened ConfigNormal
  import opened ConfigExact

  /** The nodes collected so far, followed by what the rest of the text gives. */
  function Prepended<T>(done: seq<T>, r: Parsed<seq<T>>): Parsed<seq<T>> {
    match r
    case Err => Err
    case Ok(more, t) => Ok(done + more, t)
  }

  // ----- one step of each scanner -----

  lemma SkipSpaceStep(text: string, i: nat)
    requires i < |text|
    ensures text[i] == '#' ==> SkipSpace(text[i..]) == SkipSpace(text[i + CommentLen(text[i..])..])
    ensures text[i] != '#' && IsSpace(text[i]) ==> SkipSpace(text[i..]) == SkipSpace(text[i+1..])
    ensures text[i] != '#' && !IsSpace(text[i]) ==> SkipSpace(text[i..]) == text[i..]
  {
    assert text[i..][1..] == text[i+1..];
    assert text[i..][CommentLen(text[i..])..] == text[i + CommentLen(text[i..])..];
  }

  lemma NothingToSkip()
    ensures SkipSpace("") == ""
  {
  }

  lemma CommentStep(text: string, i: nat)
    requires i < |text|
    ensures CommentLen(text[i..]) == if text[i] == '\n' || text[i] == NUL then 0 else 1 + CommentLen(text[i+1..])
  {
    assert text[i..][1..] == text[i+1..];
  }

  lemma StringStep(text: string, i: nat)
    requires i < |text|
    ensures StringLen(text[i..]) ==
            if text[i] == NUL then 0
            else if text[i] == '\"' then 1
            else if text[i] == '\\' && i + 1 < |text| && text[i+1] != NUL then 2 + StringLen(text[i+2..])
            else 1 + StringLen(text[i+1..])
  {
    assert text[i..][1..] == text[i+1..];
    if i + 1 < |text| { assert text[i..][2..] == text[i+2..]; }
  }

  lemma EmptyString()
    ensures StringLen("") == 0
  {
  }

  lemma SingleQuotedStep(text: string, i: nat)
    requires i < |text|
    ensures SingleQuotedLen(text[i..]) ==
            if text[i] == NUL then 0 else if text[i] == '\'' then 1 else 1 + SingleQuotedLen(text[i+1..])
  {
    assert text[i..][1..] == text[i+1..];
  }

  lemma NumberStep(text: string, i: nat, isFloat: bool)
    requires i < |text|
    ensures NumberTail(text[i..], isFloat) ==
            if IsDigit(text[i]) then NumberTail(text[i+1..], isFloat).(len := NumberTail(text[i+1..], isFloat).len + 1)
            else if text[i] == '.' && !isFloat
            then NumberTail(text[i+1..], true).(len := NumberTail(text[i+1..], true).len + 1)
            else Number(0, isFloat)
  {
    assert text[i..][1..] == text[i+1..];
  }

  lemma IdentifierStep(text: string, i: nat)
    requires i < |text|
    ensures IdentifierLen(text[i..]) == if EndsIdentifier(text[i]) then 0 else 1 + IdentifierLen(text[i+1..])
  {
    assert text[i..][1..] == text[i+1..];
  }

  /** `struct parser` */
  class Parser {
    const text: string  // from fb to fe
    var t: Kind
    var tb: nat         // start of the current token
    var te: nat         // end of the current token

    constructor (text: string)
      ensures this.text == text && tb == te == 0 && t == TSectionE
    {
      this.text, t, tb, te := text, TSectionE, 0, 0;
    }

    predicate Valid()
      reads this
    {
      tb <= te <= |text|
    }

    ghost function Current(): Token
      requires Valid()
      reads this
    {
      Token(t, text[tb..te], text[te..])
    }

    method SkipComment(from: nat) returns (p: nat)
      requires from <= |text|
      ensures p == from + CommentLen(text[from..])
    {
      hide CommentLen;
      p := from;
      while p != |text| && text[p] != '\n' && text[p] != NUL
        invariant from <= p <= |text|
        invariant p + CommentLen(text[p..]) == from + CommentLen(text[from..])
      {
        CommentStep(text, p);
        p := p + 1;
      }
      if p != |text| { CommentStep(text, p); }
    }

    method SkipBlanks(from: nat) returns (p: nat)
      requires from <= |text|
      ensures from <= p <= |text| && SkipSpace(text[p..]) == SkipSpace(text[from..])
      ensures from < |text| && IsSpace(text[from]) ==> from < p
    {
      hide SkipSpace;
      p := from;
      while p != |text| && IsSpace(text[p])
        invariant from <= p <= |text|
        invariant SkipSpace(text[p..]) == SkipSpace(text[from..])
      {
        SkipSpaceStep(text, p);
        p := p + 1;
      }
    }

    /** `_eat_space` */
    method EatSpace()
      requires Valid() && tb == te
      modifies `tb, `te
      ensures Valid() && tb == te && text[te..] == SkipSpace(old(text[te..]))
    {
      hide SkipSpace, CommentLen;
      ghost var start := text[te..];
      while tb != |text|
        invariant Valid() && tb == te
        invariant SkipSpace(text[te..]) == SkipSpace(start)
        decreases |text| - te
      {
        SkipSpaceStep(text, te);
        if text[te] == '#' {
          te := SkipComment(te);
        } else if !IsSpace(text[te]) {
          return;
        }
        te := SkipBlanks(te);
        tb := te;
      }
      assert text[te..] == "";
      NothingToSkip();
    }

    /** The loop over a double-quoted string, from after its opening quote. */
    method ScanString(from: nat) returns (p: nat)
      requires from <= |text|
      ensures p == from + StringLen(text[from..])
    {
      hide StringLen;
      p := from;
      while p != |text| && text[p] != NUL && text[p] != '\"'
        invariant from <= p <= |text|
        invariant p + StringLen(text[p..]) == from + StringLen(text[from..])
      {
        StringStep(text, p);
        if text[p] == '\\' && p + 1 != |text| && text[p + 1] != NUL {
          p := p + 1;
        }
        p := p + 1;
      }
      if p != |text| {
        StringStep(text, p);
        if text[p] != NUL {
          p := p + 1;
        }
      } else {
        assert text[p..] == "";
        EmptyString();
      }
    }

    method ScanSingleQuoted(from: nat) returns (p: nat)
      requires from <= |text|
      ensures p == from + SingleQuotedLen(text[from..])
    {
      p := from;
      while p != |text| && text[p] != NUL && text[p] != '\''
        invariant from <= p <= |text|
        invariant p + SingleQuotedLen(text[p..]) == from + SingleQuotedLen(text[from..])
      {
        SingleQuotedStep(text, p);
        p := p + 1;
      }
      if p != |text| {
        SingleQuotedStep(text, p);
        if text[p] != NUL {
          p := p + 1;
        }
      }
    }

    method ScanNumber(from: nat, dot: bool) returns (p: nat, isFloat: bool)
      requires from <= |text|
      ensures from <= p && Number(p - from, isFloat) == NumberTail(text[from..], dot)
    {
      p, isFloat := from, dot;
      while p != |text|
        invariant from <= p <= |text|
        invariant var n := NumberTail(text[p..], isFloat);
                  NumberTail(text[from..], dot) == Number(p - from + n.len, n.isFloat)
      {
        NumberStep(text, p, isFloat);
        if !IsDigit(text[p]) {
          if text[p] == '.' && !isFloat {
            isFloat := true;
          } else {
            break;
          }
        }
        p := p + 1;
      }
    }

    method ScanIdentifier(from: nat) returns (p: nat)
      requires from <= |text|
      ensures p == from + IdentifierLen(text[from..])
    {
      p := from;
      while p != |text| && !EndsIdentifier(text[p])
        invariant from <= p <= |text|
        invariant p + IdentifierLen(text[p..]) == from + IdentifierLen(text[from..])
      {
        IdentifierStep(text, p);
        p := p + 1;
      }
      if p != |text| { IdentifierStep(text, p); }
    }

    /** `_get_token` */
    method GetToken(prev: Kind)
      requires Valid()
      modifies this
      ensures Valid() && Current() == Lex(old(text[te..]), ValuesAllowed(prev))
    {
      hide SkipSpace, StringLen, SingleQuotedLen, NumberTail, IdentifierLen;
      tb := te;
      EatSpace();
      ghost var u := text[te..];
      assert u == SkipSpace(old(text[te..]));
      if tb == |text| || text[tb] == NUL {
        t := TEof;
        assert text[tb..te] == "";
        return;
      }
      assert u[0] == text[te] && u[1..] == text[te+1..];
      var kind, p := Classify(ValuesAllowed(prev));
      assert u[..p - te] == text[te..p] && u[p - te..] == text[p..];
      t, te := kind, p;
    }

    /** The switch of `_get_token`: kind and end of the token at `te`. */
    method Classify(valuesAllowed: bool) returns (kind: Kind, p: nat)
      requires Valid() && te < |text| && text[te] != NUL && !IsSpace(text[te]) && text[te] != '#'
      ensures te < p <= |text| && (kind, p - te) == TokenAt(text[te..], valuesAllowed)
    {
      hide SkipSpace, StringLen, SingleQuotedLen, NumberTail, IdentifierLen;
      ghost var u := text[te..];
      assert u[0] == text[te] && u[1..] == text[te+1..];
      p := te + 1;
      match text[te] {
        case '{' => kind := TSectionB;
        case '}' => kind := TSectionE;
        case '[' => kind := TArrayB;
        case ']' => kind := TArrayE;
        case ',' => kind := TComma;
        case '=' => kind := TEq;
        case '\"' =>
          kind := TStringEscaped;
          p := ScanString(te + 1);
        case '\'' =>
          kind := TString;
          p := ScanSingleQuoted(te + 1);
        case _ =>
          if StartsNumber(text[te]) && valuesAllowed {
            var isFloat;
            p, isFloat := ScanNumber(te + 1, text[te] == '.');
            kind := if isFloat then TFloat else TInt;
          } else {
            kind := TIdentifier;
            p := ScanIdentifier(te);
          }
      }
    }

    /** `_match_aux` */
    method Match(k: Kind) returns (ok: bool)
      requires Valid()
      modifies this
      ensures Valid()
      ensures ok == (old(t) == k)
      ensures Current() == if ok then Next(old(Current())) else old(Current())
    {
      if t != k {
        return false;
      }
      GetToken(k);
      return true;
    }

    /** What a parsing method leaves behind: the meaning of the tokens it started from. */
    ghost predicate Yields<T>(ok: bool, v: T, r: Parsed<T>)
      reads this
    {
      && Valid()
      && ok == r.Ok?
      && (ok ==> v == r.value && Current() == r.next)
    }

    /** `_type` */
    method Type() returns (ok: bool, v: Value)
      requires Valid() && Progresses(Current())
      modifies this
      ensures Yields(ok, v, ParseType(old(Current())))
    {
      hide Lex, Strtoll, UnescapeDoubleQuotes;
      v := EmptyArray;
      assert text[tb..te] + text[te..] == text[tb..];
      ghost var cur := Current();
      match t {
        case TInt =>
          v := Int(Strtoll(text[tb..]));
          ok := Match(TInt);
        case TFloat =>
          v := Float(text[tb..te]);
          ok := Match(TFloat);
        case TString =>
          if te - tb < 2 {
            return false, v;
          }
          tb, te := tb + 1, te - 1;
          assert text[tb..te] == Inside(cur.lexeme);
          v := Str(text[tb..te]);
          te := te + 1;
          ok := Match(TString);
        case TStringEscaped =>
          if te - tb < 2 {
            return false, v;
          }
          tb, te := tb + 1, te - 1;
          assert text[tb..te] == Inside(cur.lexeme);
          v := Str(UnescapeDoubleQuotes(text[tb..te]));
          te := te + 1;
          ok := Match(TStringEscaped);
        case _ =>
          ok := false;
      }
    }

    /** `_value` */
    method ReadValue() returns (ok: bool, vs: seq<Value>)
      requires Valid() && Progresses(Current())
      modifies this
      ensures Yields(ok, vs, ParseValue(old(Current())))
    {
      hide Lex, ParseType, ParseElements;
      vs := [];
      if t == TArrayB {
        ok := Match(TArrayB);
        ghost var inner := Current();
        PrependNothing(ParseElements(inner));
        while t != TArrayE
          invariant Valid() && Progresses(Current())
          invariant ParseElements(inner) == Prepended(vs, ParseElements(Current()))
          decreases Size(Current())
        {
          ElementsStep(vs, Current());
          var more, v := Type();
          if !more {
            return false, [];
          }
          vs := vs + [v];
          if t == TComma {
            ok := Match(TComma);
          }
        }
        ElementsEnd(vs, Current());
        ok := Match(TArrayE);
        if vs == [] {
          vs := [EmptyArray];
        }
      } else {
        var v;
        ok, v := Type();
        vs := [v];
      }
    }

    /** `_section` */
    method ReadSection() returns (ok: bool, n: Node)
      requires Valid() && Progresses(Current())
      modifies this
      ensures Yields(ok, n, ParseSection(old(Current())))
      decreases Size(Current())
    {
      hide Lex, ParseValue, ParseBody;
      var key := text[tb..te];
      n := Section(key, []);
      ok := Match(TIdentifier);
      if !ok {
        return;
      }
      if t == TSectionB {
        ok := Match(TSectionB);
        ghost var inner := Current();
        var ns: seq<Node> := [];
        PrependNothing(ParseBody(inner));
        while t != TSectionE
          invariant Valid() && Progresses(Current()) && Size(Current()) < Size(old(Current()))
          invariant ParseBody(inner) == Prepended(ns, ParseBody(Current()))
          decreases Size(Current())
        {
          BodyStep(ns, Current());
          var more, child := ReadSection();
          if !more {
            return false, n;
          }
          ns := ns + [child];
        }
        BodyEnd(ns, Current());
        ok := Match(TSectionE);
        n := Section(key, ns);
      } else {
        ok := Match(TEq);
        if !ok {
          return;
        }
        var vs;
        ok, vs := ReadValue();
        n := Setting(key, vs);
      }
    }

    /** `_file` */
    method ReadFile() returns (ok: bool, ns: seq<Node>)
      requires Valid() && Progresses(Current())
      modifies this
      ensures Yields(ok, ns, ParseFile(old(Current())))
    {
      hide Lex, ParseSection;
      ns := [];
      ghost var start := Current();
      PrependNothing(ParseFile(start));
      while t != TEof
        invariant Valid() && Progresses(Current())
        invariant ParseFile(start) == Prepended(ns, ParseFile(Current()))
        decreases Size(Current())
      {
        FileStep(ns, Current());
        var more, n := ReadSection();
        if !more {
          return false, [];
        }
        ns := ns + [n];
      }
      assert ns + [] == ns;
      return true, ns;
    }
  }

  lemma PrependNothing<T>(r: Parsed<seq<T>>)
    ensures Prepended([], r) == r
  {
    if r.Ok? { assert [] + r.value == r.value; }
  }

  /** One more element of an array. */
  lemma ElementsStep(done: seq<Value>, t: Token)
    requires Progresses(t) && t.kind != TArrayE
    ensures var r := ParseType(t);
            Prepended(done, ParseElements(t)) ==
            if r.Err? then Err else Prepended(done + [r.value], ParseElements(SkipComma(r.next)))
  {
    hide Lex, ParseType;
    var r := ParseType(t);
    if r.Ok? {
      var rest := ParseElements(SkipComma(r.next));
      if rest.Ok? { assert done + ([r.value] + rest.value) == done + [r.value] + rest.value; }
    }
  }

  lemma ElementsEnd(done: seq<Value>, t: Token)
    requires Progresses(t) && t.kind == TArrayE
    ensures Prepended(done, ParseElements(t)) == Ok(done, Next(t))
  {
    assert done + [] == done;
  }

  /** One more node of a section. */
  lemma BodyStep(done: seq<Node>, t: Token)
    requires Progresses(t) && t.kind != TSectionE
    ensures var r := ParseSection(t);
            Prepended(done, ParseBody(t)) == if r.Err? then Err else Prepended(done + [r.value], ParseBody(r.next))
  {
    hide Lex, ParseSection;
    var r := ParseSection(t);
    if r.Ok? {
      var rest := ParseBody(r.next);
      if rest.Ok? { assert done + ([r.value] + rest.value) == done + [r.value] + rest.value; }
    }
  }

  lemma BodyEnd(done: seq<Node>, t: Token)
    requires Progresses(t) && t.kind == TSectionE
    ensures Prepended(done, ParseBody(t)) == Ok(done, Next(t))
  {
    assert done + [] == done;
  }

  lemma FileStep(done: seq<Node>, t: Token)
    requires Progresses(t) && t.kind != TEof
    ensures var r := ParseSection(t);
            Prepended(done, ParseFile(t)) == if r.Err? then Err else Prepended(done + [r.value], ParseFile(r.next))
  {
    hide Lex, ParseSection;
    var r := ParseSection(t);
    if r.Ok? {
      var rest := ParseFile(r.next);
      if rest.Ok? { assert done + ([r.value] + rest.value) == done + [r.value] + rest.value; }
    }
  }

  /** `dm_config_parse` */
  method ParseText(text: string) returns (r: Outcome)
    ensures r == Parse(text)
  {
    hide Lex, ParseFile;
    var p := new Parser(text);
    assert text[0..] == text;
    p.GetToken(TSectionE);
    var ok, ns := p.ReadFile();
    r := if ok && ns != [] then Forest(ns) else NoForest;
  }

  /** `dm_config_write_node` into a file and `dm_config_parse` of it: the forest comes back exactly if it survives. */
  method PrintThenParse(ns: seq<Node>) returns (ok: bool, r: Outcome)
    requires ns != [] && AllPrintable(ns)
    ensures AllFloatFree(ns) && ((ok && r == Forest(ns)) <==> Survives(ns))
    ensures AllFit(ns, 0) ==> ok && r == Forest(ns)
  {
    PrintedRoundTripIff(ns);
    if AllFit(ns, 0) { PrintedRoundTrip(ns); }
    hide Survives, AllFit;
    var printer := new Printer();
    ok := printer.WriteConfig(ns, 0);
    assert [] + WriteForest(ns, 0).lines == WriteForest(ns, 0).lines;
    r := ParseText(Joined(printer.lines));
  }

  /** The normal form through the real printer: what is read and written out reads back the same iff it survives. */
  lemma PrintedNormalForm(text: string)
    requires Parse(text).Forest? && AllFloatFree(Parse(text).nodes)
    ensures var w := WriteForest(Parse(text).nodes, 0);
            (w.ok && Parse(Joined(w.lines)) == Parse(text)) <==> Survives(Parse(text).nodes)
  {
    NormalForm(text);
    PrintedRoundTripIff(Parse(text).nodes);
  }
}
