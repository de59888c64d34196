/**
The ranges of extents as they are written after a volume's name.

Each range follows a colon and is written as one extent, as an open range in either direction, as
two extents with a hyphen between them, or as a hyphen alone.  These texts are exactly the ones
that are accepted, and each means the extents it names.
*/
module PeText {
  import opened Words
  import opened PeRanges
  import Numbers = ConfigText
  import NumbersBack = ConfigRoundTrip

  datatype Form = Single(a: string) | From(a: string) | UpTo(b: string) | Between(a: string, b: string) | Whole

  function FormText(f: Form): string {
    match f
    case Single(a) => a
    case From(a) => a + "-"
    case UpTo(b) => "-" + b
    case Between(a, b) => a + ("-" + b)
    case Whole => "-"
  }

  function FormsText(fs: seq<Form>): string {
    if fs == [] then "" else ":" + (FormText(fs[0]) + FormsText(fs[1..]))
  }

  /** The number that decimal digits stand for. */
  function Value(d: string): nat
    decreases |d|
  {
    if d == "" then 0
    else 10 * Value(d[..|d| - 1]) + if '0' <= d[|d| - 1] <= '9' then d[|d| - 1] as int - '0' as int else 0
  }

  ghost predicate IsNumber(d: string) {
    d != "" && (forall i :: 0 <= i < |d| ==> '0' <= d[i] <= '9') && Value(d) <= 0xFFFF_FFFF
  }

  /** The last extent of a volume; the count is an unsigned number. */
  function LastOf(size: nat): int {
    if size == 0 then 0xFFFF_FFFF else size - 1
  }

  function Start(f: Form): nat {
    match f
    case Single(a) => Value(a)
    case From(a) => Value(a)
    case Between(a, _) => Value(a)
    case UpTo(_) => 0
    case Whole => 0
  }

  function End(f: Form, size: nat): int {
    match f
    case Single(a) => Value(a)
    case UpTo(b) => Value(b)
    case Between(_, b) => Value(b)
    case From(_) => LastOf(size)
    case Whole => LastOf(size)
  }

  ghost predicate Numbered(f: Form) {
    match f
    case Single(a) => IsNumber(a)
    case From(a) => IsNumber(a)
    case UpTo(b) => IsNumber(b)
    case Between(a, b) => IsNumber(a) && IsNumber(b)
    case Whole => true
  }

  /** Numbers of at most 32 bits, in order and on the volume. */
  ghost predicate Legal(f: Form, size: nat) {
    Numbered(f) && Start(f) <= End(f, size) <= LastOf(size)
  }

  ghost predicate AllLegal(fs: seq<Form>, size: nat) {
    forall i :: 0 <= i < |fs| ==> Legal(fs[i], size)
  }

  function Meant(f: Form, size: nat): Range
    requires Start(f) <= End(f, size)
  {
    Range(Start(f), (End(f, size) - Start(f) + 1) % 0x1_0000_0000)
  }

  function AllMeant(fs: seq<Form>, size: nat): (rs: seq<Range>)
    requires forall i :: 0 <= i < |fs| ==> Start(fs[i]) <= End(fs[i], size)
  {
    if fs == [] then [] else [Meant(fs[0], size)] + AllMeant(fs[1..], size)
  }

  // ----- numbers -----

  lemma {:induction false} DigitsAreValue(d: string)
    requires NumbersBack.AllDigits(d)
    ensures Numbers.Digits(0, d, 10) == Value(d)
    decreases |d|
  {
    if d != "" {
      var front, c := d[..|d| - 1], [d[|d| - 1]];
      DigitsAreValue(front);
      NumbersBack.DigitsThenMore(0, front, c);
      assert front + c == d && c[1..] == "";
    }
  }

  lemma ReadsNumber(d: string, t: string)
    requires d != "" && NumbersBack.AllDigits(d) && !StartsWithDigit(t)
    ensures StartsWithDigit(d + t)
    ensures Number(d + t) == if Value(d) <= UINT32_MAX then Bound(Value(d), t) else TooBig
  {
    hide Numbers.Digits, Value;
    var s := d + t;
    assert s[0] == d[0];
    DigitsLenOf(d, t);
    NumbersBack.DigitsThenMore(0, d, t);
    DigitsAreValue(d);
    NoMoreDigits(Value(d), t);
    assert s[|d|..] == t;
  }

  lemma NoMoreDigits(acc: nat, t: string)
    requires !StartsWithDigit(t)
    ensures Numbers.Digits(acc, t, 10) == acc
  {
  }

  lemma {:induction false} DigitsPrefix(s: string)
    ensures NumbersBack.AllDigits(s[..DigitsLen(s)]) && !StartsWithDigit(s[DigitsLen(s)..])
    ensures StartsWithDigit(s) ==> DigitsLen(s) > 0
  {
    if StartsWithDigit(s) {
      DigitsPrefix(s[1..]);
      var n := DigitsLen(s[1..]);
      assert s[..n+1] == [s[0]] + s[1..][..n] && s[n+1..] == s[1..][n..];
    }
  }

  /** Every text that starts with a digit starts with a number and goes on without one. */
  lemma StartsWithNumber(s: string) returns (d: string, t: string)
    requires StartsWithDigit(s)
    ensures s == d + t && d != "" && NumbersBack.AllDigits(d) && !StartsWithDigit(t)
    ensures Number(s) == if Value(d) <= UINT32_MAX then Bound(Value(d), t) else TooBig
  {
    DigitsPrefix(s);
    var n := DigitsLen(s);
    d, t := s[..n], s[n..];
    assert s == d + t;
    ReadsNumber(d, t);
  }

  lemma LastOfIs(size: nat)
    requires size <= UINT32_MAX
    ensures Wrap32(size - 1) == LastOf(size)
  {
  }

  // ----- one range -----

  lemma CheckedIs(start: nat, end: nat, t: string, size: nat)
    requires AtEnd(t) && start <= end <= LastOf(size) && size <= UINT32_MAX
    ensures Checked(start, end, t, size) == Item(Range(start, (end - start + 1) % 0x1_0000_0000), t)
  {
    LastOfIs(size);
  }

  lemma EndsNumber(t: string)
    ensures AtEnd(t) ==> !StartsWithDigit(t)
    ensures !AtEnd("-" + t) && !StartsWithDigit("-" + t)
  {
  }

  lemma ReadsStart(a: string, u: string, size: nat)
    requires IsNumber(a) && !StartsWithDigit(u) && size <= UINT32_MAX
    ensures ItemAt(a + u, size) == ItemAfter(Value(a), u, if AtEnd(u) then Value(a) else LastOf(size), size)
    ensures !AtEnd(a + u)
  {
    hide Number, Wrap32, Value, ItemAfter;
    LastOfIs(size);
    ReadsNumber(a, u);
  }

  lemma ReadsNoStart(u: string, size: nat)
    requires u != "" && u[0] == '-' && size <= UINT32_MAX
    ensures ItemAt(u, size) == ItemAfter(0, u, LastOf(size), size) && !AtEnd(u)
  {
    hide Wrap32, ItemAfter;
    LastOfIs(size);
  }

  lemma ReadsNoEnd(start: nat, lone: nat, t: string, size: nat)
    requires AtEnd(t)
    ensures ItemAfter(start, t, lone, size) == ItemAfter(start, "-" + t, lone, size) == Checked(start, lone, t, size)
  {
    hide Checked;
    assert ("-" + t)[1..] == t;
  }

  lemma ReadsEnd(start: nat, b: string, lone: nat, t: string, size: nat)
    requires AtEnd(t) && IsNumber(b)
    ensures ItemAfter(start, "-" + (b + t), lone, size) == Checked(start, Value(b), t, size)
  {
    hide Checked, Number, Value;
    assert ("-" + (b + t))[1..] == b + t;
    ReadsNumber(b, t);
  }

  /** What a legal form means is what is read. */
  lemma FormReads(f: Form, size: nat, t: string)
    requires Legal(f, size) && size <= UINT32_MAX && AtEnd(t)
    ensures ItemAt(FormText(f) + t, size) == Item(Meant(f, size), t) && !AtEnd(FormText(f) + t)
  {
    hide Checked, ItemAfter, ItemAt, Value, AtEnd, StartsWithDigit;
    CheckedIs(Start(f), End(f, size), t, size);
    ReadsNoEnd(Start(f), End(f, size), t, size);
    EndsNumber(t);
    match f
    case Single(a) => ReadsStart(a, t, size);
    case From(a) =>
      Associative(a, "-", t);
      ReadsStart(a, "-" + t, size);
    case UpTo(b) =>
      Associative("-", b, t);
      ReadsNoStart("-" + (b + t), size);
      ReadsEnd(0, b, LastOf(size), t, size);
    case Between(a, b) =>
      EndsNumber(b + t);
      Associative(a, "-" + b, t);
      Associative("-", b, t);
      ReadsStart(a, "-" + (b + t), size);
      ReadsEnd(Value(a), b, LastOf(size), t, size);
    case Whole =>
      ReadsNoStart("-" + t, size);
  }

  /** The other way round: what is read was written in one of the forms. */
  lemma ItemIsForm(s: string, size: nat) returns (f: Form)
    requires size <= UINT32_MAX && ItemAt(s, size).Item? && !AtEnd(s)
    ensures Legal(f, size) && s == FormText(f) + ItemAt(s, size).rest && AtEnd(ItemAt(s, size).rest)
  {
    hide Number, Wrap32, Value;
    LastOfIs(size);
    if StartsWithDigit(s) {
      var a, u := StartsWithNumber(s);
      f := AfterStart(a, u, size);
    } else {
      f := AfterNothing(s, size);
    }
  }

  lemma AfterStart(a: string, u: string, size: nat) returns (f: Form)
    requires size <= UINT32_MAX && IsNumber(a)
    requires ItemAfter(Value(a), u, if AtEnd(u) then Value(a) else LastOf(size), size).Item?
    ensures var rest := ItemAfter(Value(a), u, if AtEnd(u) then Value(a) else LastOf(size), size).rest;
      Legal(f, size) && a + u == FormText(f) + rest && AtEnd(rest)
  {
    hide Number, Wrap32, Value;
    LastOfIs(size);
    if AtEnd(u) {
      f := Single(a);
    } else if u[0] == '-' && StartsWithDigit(u[1..]) {
      var b, t := StartsWithNumber(u[1..]);
      f := Between(a, b);
      assert u == "-" + (b + t);
      assert a + u == a + ("-" + b) + t;
    } else {
      f := From(a);
      assert u[0] == '-' ==> a + u == a + "-" + u[1..];
    }
  }

  lemma AfterNothing(s: string, size: nat) returns (f: Form)
    requires size <= UINT32_MAX && !AtEnd(s) && ItemAfter(0, s, LastOf(size), size).Item?
    ensures var rest := ItemAfter(0, s, LastOf(size), size).rest;
      Legal(f, size) && s == FormText(f) + rest && AtEnd(rest)
  {
    hide Number, Wrap32, Value;
    LastOfIs(size);
    if s[0] == '-' && StartsWithDigit(s[1..]) {
      var b, t := StartsWithNumber(s[1..]);
      f := UpTo(b);
      assert s == "-" + b + t;
    } else {
      f := Whole;
      assert s[0] == '-' ==> s == "-" + s[1..];
    }
  }

  // ----- all of them -----

  lemma FormsAtEnd(fs: seq<Form>)
    ensures AtEnd(FormsText(fs))
  {
  }

  /** Every list of ranges, in any of the forms, is read as what it means. */
  lemma {:induction false} FormsRead(fs: seq<Form>, size: nat)
    requires size <= UINT32_MAX && AllLegal(fs, size)
    ensures Ranges(FormsText(fs), size) == Some(AllMeant(fs, size))
  {
    if fs != [] {
      hide ItemAt, FormText, Legal;
      assert Legal(fs[0], size);
      var t := FormsText(fs[1..]);
      FormsRead(fs[1..], size);
      FormsAtEnd(fs[1..]);
      FormReads(fs[0], size, t);
      RangesOfText(FormsText(fs), FormText(fs[0]) + t, Meant(fs[0], size), t, size);
    }
  }

  lemma MoreForms(f: Form, fs: seq<Form>, size: nat)
    requires Legal(f, size) && AllLegal(fs, size)
    ensures FormsText([f] + fs) == ":" + (FormText(f) + FormsText(fs)) && AllLegal([f] + fs, size)
  {
    assert ([f] + fs)[1..] == fs;
  }

  lemma RangesStart(s: string, size: nat) returns (u: string, rest: string)
    requires s != "" && Ranges(s, size).Some?
    ensures s == ":" + u && !AtEnd(u) && ItemAt(u, size).Item? && rest == ItemAt(u, size).rest
    ensures |rest| < |s| && Ranges(rest, size).Some?
  {
    u := s[1..];
    rest := ItemAt(u, size).rest;
  }

  /** And nothing else is accepted. */
  lemma {:induction false} RangesAreForms(s: string, size: nat) returns (fs: seq<Form>)
    requires size <= UINT32_MAX && Ranges(s, size).Some?
    ensures AllLegal(fs, size) && s == FormsText(fs)
    decreases |s|
  {
    if s == "" {
      fs := [];
    } else {
      hide ItemAt, FormText, FormsText, Legal, Ranges, AllLegal;
      var u, rest := RangesStart(s, size);
      var f := ItemIsForm(u, size);
      var more := RangesAreForms(rest, size);
      fs := [f] + more;
      MoreForms(f, more, size);
    }
  }

  /** The texts that are accepted are exactly the lists of legal forms. */
  lemma AcceptedIff(s: string, size: nat)
    requires size <= UINT32_MAX
    ensures Ranges(s, size).Some? <==> exists fs :: AllLegal(fs, size) && s == FormsText(fs)
  {
    hide Ranges, FormsText, Legal;
    if Ranges(s, size).Some? {
      var fs := RangesAreForms(s, size);
    }
    if fs :| AllLegal(fs, size) && s == FormsText(fs) {
      FormsRead(fs, size);
    }
  }
}
