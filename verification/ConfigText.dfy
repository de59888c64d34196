/**
The configuration format of libdm-config.c: its tokens, its grammar and its printed form,
as functions on text.  The text is a C string: a NUL ends it.
*/
module ConfigText {
  import opened Escaping

  datatype Value = Int(i: int) | Str(s: string) | EmptyArray | Float(lexeme: string)

  /** `struct dm_config_node`: a section, or a key with its list of values. */
  datatype Node = Section(key: string, children: seq<Node>) | Setting(key: string, values: seq<Value>)

  // ----- tokens -----

  datatype Kind =
    | TInt | TFloat | TString | TStringEscaped | TEq | TSectionB | TSectionE
    | TArrayB | TArrayE | TIdentifier | TComma | TEof

  /** The current token: its kind, its text, and everything after it. */
  datatype Token = Token(kind: Kind, lexeme: string, rest: string)

  predicate IsSpace(c: char) {
    c == ' ' || c == '\t' || c == '\n' || c == '\r' || c == '\U{0b}' || c == '\U{0c}'
  }

  predicate IsDigit(c: char) {
    '0' <= c <= '9'
  }

  /** Characters that end an identifier. */
  predicate EndsIdentifier(c: char) {
    c == NUL || IsSpace(c) || c == '#' || c == '=' || c == '{' || c == '}'
  }

  /** Should the next token be read as a value instead of an identifier? */
  predicate ValuesAllowed(prev: Kind) {
    prev == TEq || prev == TArrayB || prev == TComma
  }

  function CommentLen(s: string): (n: nat)
    ensures n <= |s| && (s != "" && s[0] == '#' ==> n > 0)
  {
    if s == "" || s[0] == '\n' || s[0] == NUL then 0 else 1 + CommentLen(s[1..])
  }

  /** `_eat_space`: what is left after blanks and comments. */
  function SkipSpace(s: string): (r: string)
    ensures |r| <= |s|
    ensures r != "" ==> !IsSpace(r[0]) && r[0] != '#'
    decreases |s|
  {
    if s == "" then s
    else if s[0] == '#' then SkipSpace(s[CommentLen(s)..])
    else if IsSpace(s[0]) then SkipSpace(s[1..])
    else s
  }

  /** The length of a double-quoted string after its opening quote, closing quote included. */
  function StringLen(s: string): (n: nat)
    ensures n <= |s|
  {
    if s == "" || s[0] == NUL then 0
    else if s[0] == '\"' then 1
    else if s[0] == '\\' && |s| > 1 && s[1] != NUL then 2 + StringLen(s[2..])
    else 1 + StringLen(s[1..])
  }

  /** The same for a single-quoted string. */
  function SingleQuotedLen(s: string): (n: nat)
    ensures n <= |s|
  {
    if s == "" || s[0] == NUL then 0
    else if s[0] == '\'' then 1
    else 1 + SingleQuotedLen(s[1..])
  }

  datatype Number = Number(len: nat, isFloat: bool)

  /** The rest of a number: digits, and one dot that makes it a float. */
  function NumberTail(s: string, isFloat: bool): (n: Number)
    ensures n.len <= |s|
  {
    if s == "" then Number(0, isFloat)
    else if IsDigit(s[0]) then var n := NumberTail(s[1..], isFloat); n.(len := n.len + 1)
    else if s[0] == '.' && !isFloat then var n := NumberTail(s[1..], true); n.(len := n.len + 1)
    else Number(0, isFloat)
  }

  function IdentifierLen(s: string): (n: nat)
    ensures n <= |s| && (s != "" && !EndsIdentifier(s[0]) ==> n > 0)
  {
    if s == "" || EndsIdentifier(s[0]) then 0 else 1 + IdentifierLen(s[1..])
  }

  predicate StartsNumber(c: char) {
    c == '.' || IsDigit(c) || c == '+' || c == '-'
  }

  /** Kind and length of the token at the start of a text that starts with neither blank nor comment. */
  function TokenAt(s: string, valuesAllowed: bool): (r: (Kind, nat))
    requires s != "" && s[0] != NUL && !IsSpace(s[0]) && s[0] != '#'
    ensures 0 < r.1 <= |s| && r.0 != TEof
  {
    match s[0]
    case '{' => (TSectionB, 1)
    case '}' => (TSectionE, 1)
    case '[' => (TArrayB, 1)
    case ']' => (TArrayE, 1)
    case ',' => (TComma, 1)
    case '=' => (TEq, 1)
    case '\"' => (TStringEscaped, 1 + StringLen(s[1..]))
    case '\'' => (TString, 1 + SingleQuotedLen(s[1..]))
    case _ =>
      if StartsNumber(s[0]) && valuesAllowed then
        var n := NumberTail(s[1..], s[0] == '.');
        (if n.isFloat then TFloat else TInt, 1 + n.len)
      else (TIdentifier, IdentifierLen(s))
  }

  /** `_get_token`: every token but the end of the text consumes something. */
  function Lex(s: string, valuesAllowed: bool): (t: Token)
    ensures |t.lexeme| + |t.rest| <= |s|
    ensures t.kind != TEof ==> t.lexeme != ""
  {
    var u := SkipSpace(s);
    if u == "" || u[0] == NUL then Token(TEof, "", u)
    else
      var (kind, len) := TokenAt(u, valuesAllowed);
      Token(kind, u[..len], u[len..])
  }

  /** A token that the tokeniser could have produced, as far as progress is concerned. */
  predicate Progresses(t: Token) {
    t.kind != TEof ==> t.lexeme != ""
  }

  function Size(t: Token): nat {
    |t.lexeme| + |t.rest|
  }

  /** `_match_aux`: the token after `t`. */
  function Next(t: Token): (n: Token)
    ensures Progresses(n) && Size(n) <= |t.rest|
  {
    Lex(t.rest, ValuesAllowed(t.kind))
  }

  // ----- strtoll with base 0 -----

  const INT64_MAX: int := 0x7FFF_FFFF_FFFF_FFFF
  const INT64_MIN: int := -0x8000_0000_0000_0000

  function DigitValue(c: char): nat {
    if '0' <= c <= '9' then c as int - '0' as int
    else if 'a' <= c <= 'f' then 10 + c as int - 'a' as int
    else if 'A' <= c <= 'F' then 10 + c as int - 'A' as int
    else 99
  }

  /** The number written by the longest prefix of digits, after `acc`. */
  function Digits(acc: nat, s: string, base: nat): nat
    decreases |s|
  {
    if s == "" || DigitValue(s[0]) >= base then acc else Digits(acc * base + DigitValue(s[0]), s[1..], base)
  }

  function Magnitude(s: string): nat {
    if |s| > 2 && s[0] == '0' && (s[1] == 'x' || s[1] == 'X') && DigitValue(s[2]) < 16 then Digits(0, s[2..], 16)
    else if s != "" && s[0] == '0' then Digits(0, s, 8)
    else Digits(0, s, 10)
  }

  function Clamp(n: int): (r: int)
    ensures INT64_MIN <= r <= INT64_MAX
    ensures INT64_MIN <= n <= INT64_MAX ==> r == n
  {
    if n < INT64_MIN then INT64_MIN else if n > INT64_MAX then INT64_MAX else n
  }

  /** Reads on past the end of the token, as strtoll does. */
  function Strtoll(s: string): (r: int)
    ensures INT64_MIN <= r <= INT64_MAX
  {
    if s != "" && s[0] == '-' then Clamp(0 - Magnitude(s[1..]))
    else if s != "" && s[0] == '+' then Clamp(Magnitude(s[1..]))
    else Clamp(Magnitude(s))
  }

  // ----- grammar -----

  datatype Parsed<T> = Ok(value: T, next: Token) | Err

  /** The inside of a quoted token.  A lone opening quote has none. */
  function Inside(lexeme: string): string
    requires |lexeme| >= 2
  {
    lexeme[1..|lexeme| - 1]
  }

  /** `_type` */
  function ParseType(t: Token): (r: Parsed<Value>)
    requires Progresses(t)
    ensures r.Ok? ==> Progresses(r.next) && Size(r.next) < Size(t)
  {
    match t.kind
    case TInt => Ok(Int(Strtoll(t.lexeme + t.rest)), Next(t))
    case TFloat => Ok(Float(t.lexeme), Next(t))
    case TString => if |t.lexeme| < 2 then Err else Ok(Str(Inside(t.lexeme)), Next(t))
    case TStringEscaped =>
      if |t.lexeme| < 2 then Err else Ok(Str(UnescapeDoubleQuotes(Inside(t.lexeme))), Next(t))
    case _ => Err
  }

  function SkipComma(t: Token): (r: Token)
    requires Progresses(t)
    ensures Progresses(r) && Size(r) <= Size(t)
  {
    if t.kind == TComma then Next(t) else t
  }

  /** The loop of `_value` over the elements of an array. */
  function ParseElements(t: Token): (r: Parsed<seq<Value>>)
    requires Progresses(t)
    ensures r.Ok? ==> Progresses(r.next) && Size(r.next) < Size(t)
    decreases Size(t)
  {
    if t.kind == TArrayE then Ok([], Next(t))
    else
      match ParseType(t)
      case Err => Err
      case Ok(v, t1) =>
        match ParseElements(SkipComma(t1))
        case Err => Err
        case Ok(vs, t2) => Ok([v] + vs, t2)
  }

  /** `_value` */
  function ParseValue(t: Token): (r: Parsed<seq<Value>>)
    requires Progresses(t)
    ensures r.Ok? ==> r.value != [] && Progresses(r.next) && Size(r.next) < Size(t)
  {
    if t.kind == TArrayB then
      match ParseElements(Next(t))
      case Err => Err
      case Ok(vs, t1) => Ok(if vs == [] then [EmptyArray] else vs, t1)
    else
      match ParseType(t)
      case Err => Err
      case Ok(v, t1) => Ok([v], t1)
  }

  /** `_section` */
  function ParseSection(t: Token): (r: Parsed<Node>)
    requires Progresses(t)
    ensures r.Ok? ==> Progresses(r.next) && Size(r.next) < Size(t)
    decreases Size(t), 0
  {
    if t.kind != TIdentifier then Err
    else
      var t1 := Next(t);
      if t1.kind == TSectionB then
        match ParseBody(Next(t1))
        case Err => Err
        case Ok(ns, t2) => Ok(Section(t.lexeme, ns), t2)
      else if t1.kind == TEq then
        match ParseValue(Next(t1))
        case Err => Err
        case Ok(vs, t2) => Ok(Setting(t.lexeme, vs), t2)
      else Err
  }

  /** The loop of `_section` up to the closing brace. */
  function ParseBody(t: Token): (r: Parsed<seq<Node>>)
    requires Progresses(t)
    ensures r.Ok? ==> Progresses(r.next) && Size(r.next) < Size(t)
    decreases Size(t), 1
  {
    if t.kind == TSectionE then Ok([], Next(t))
    else
      match ParseSection(t)
      case Err => Err
      case Ok(n, t1) =>
        match ParseBody(t1)
        case Err => Err
        case Ok(ns, t2) => Ok([n] + ns, t2)
  }

  /** `_file` */
  function ParseFile(t: Token): (r: Parsed<seq<Node>>)
    requires Progresses(t)
    decreases Size(t)
  {
    if t.kind == TEof then Ok([], t)
    else
      match ParseSection(t)
      case Err => Err
      case Ok(n, t1) =>
        match ParseFile(t1)
        case Err => Err
        case Ok(ns, t2) => Ok([n] + ns, t2)
  }

  datatype Outcome = Forest(nodes: seq<Node>) | NoForest

  /** `dm_config_parse`, which refuses a text without any node. */
  function Parse(s: string): Outcome {
    match ParseFile(Lex(s, false))
    case Err => NoForest
    case Ok(ns, _) => if ns == [] then NoForest else Forest(ns)
  }

  // ----- the printed form -----

  function Decimal(n: nat): (s: string)
    ensures s != "" && forall i :: 0 <= i < |s| ==> IsDigit(s[i])
  {
    if n < 10 then [('0' as int + n) as char] else Decimal(n / 10) + [('0' as int + n % 10) as char]
  }

  function Signed(n: int): string {
    if n < 0 then "-" + Decimal(-n) else Decimal(n)
  }

  ghost predicate NoFloats(vs: seq<Value>) {
    forall i :: 0 <= i < |vs| ==> !vs[i].Float?
  }

  /** No value of the node is a float, and every setting has a value. */
  ghost predicate FloatFree(n: Node)
    decreases n, 1
  {
    match n
    case Section(_, children) => AllFloatFree(children)
    case Setting(_, values) => values != [] && NoFloats(values)
  }

  ghost predicate AllFloatFree(ns: seq<Node>)
    decreases ns, 0
  {
    ns == [] || (FloatFree(ns[0]) && AllFloatFree(ns[1..]))
  }

  /** `_write_value` */
  function ValueText(v: Value): string
    requires !v.Float?
  {
    match v
    case Int(i) => Signed(i)
    case Str(s) => "\"" + EscapeDoubleQuotes(s) + "\""
    case EmptyArray => "[]"
  }

  /** The elements of an array, up to the first empty-array marker. */
  function ElementsText(vs: seq<Value>): string
    requires NoFloats(vs)
  {
    if vs == [] || vs[0] == EmptyArray then ""
    else ValueText(vs[0]) + (if |vs| > 1 && vs[1] != EmptyArray then ", " + ElementsText(vs[1..]) else "")
  }

  function ValuesText(vs: seq<Value>): string
    requires vs != [] && NoFloats(vs)
  {
    if |vs| > 1 then "[" + ElementsText(vs) + "]" else ValueText(vs[0])
  }

  const MAX_INDENT: nat := 32

  function Tabs(n: nat): (s: string)
    ensures |s| == n && forall i :: 0 <= i < |s| ==> s[i] == '\t'
  {
    if n == 0 then "" else "\t" + Tabs(n - 1)
  }

  function Indent(level: nat): string {
    Tabs(if level < MAX_INDENT then level else MAX_INDENT)
  }

  function NodeText(n: Node, level: nat): string
    requires FloatFree(n)
    decreases n, 1
  {
    match n
    case Section(key, children) =>
      Indent(level) + key + " {\n" + ForestText(children, level + 1) + Indent(level) + "}\n"
    case Setting(key, values) =>
      Indent(level) + key + "=" + ValuesText(values) + "\n"
  }

  /** What `_write_config` prints when every fragment fits: each line followed by a newline. */
  function ForestText(ns: seq<Node>, level: nat): string
    requires AllFloatFree(ns)
    decreases ns, 0
  {
    if ns == [] then "" else NodeText(ns[0], level) + ForestText(ns[1..], level)
  }
}
