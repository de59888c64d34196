/**
Device names across their codecs: the characters that need no mangling, what any mangled name
means, and names of volumes, which never need it.
*/
module DeviceNames {
  import opened Escaping
  import opened LvmName
  import opened Mangle

  // ----- the whitelist and the hexadecimal form -----

  const LOWER := "0123456789abcdef"
  const UPPER := "0123456789ABCDEF"

  predicate Alphanumeric(c: char) {
    '0' <= c <= '9' || 'a' <= c <= 'z' || 'A' <= c <= 'Z'
  }

  /** The characters that device names are made of without mangling. */
  predicate Allowed(c: char) {
    Alphanumeric(c) || c in "#+-.:=@_"
  }

  lemma WhitelistIs(c: Byte)
    ensures Whitelisted(c) <==> Allowed(c)
  {
  }

  /** A mangled character is its code in two lower-case hexadecimal digits, high one first. */
  lemma HexCharIs(hi: nat, lo: nat)
    requires hi < 16 && lo < 16 && hi + lo > 0
    ensures HexChar((16 * hi + lo) as char) == ['\\', 'x', LOWER[hi], LOWER[lo]]
  {
    assert (16 * hi + lo) / 16 == hi && (16 * hi + lo) % 16 == lo;
    HexDigitIs(hi);
    HexDigitIs(lo);
  }

  lemma HexDigitIs(n: nat)
    requires n < 16
    ensures HexDigit(n) == LOWER[n]
  {
  }

  // ----- what a mangled name means -----

  /** A character as it stands, or two hexadecimal digits in either case after `\x`. */
  datatype Part = Plain(c: Byte) | Coded(hi: nat, lo: nat, upperHi: bool, upperLo: bool)

  function DigitOf(n: nat, upper: bool): (c: Byte)
    requires n < 16
  {
    if upper then UPPER[n] else LOWER[n]
  }

  ghost predicate LegalPart(p: Part) {
    p.Coded? ==> p.hi < 16 && p.lo < 16
  }

  function PartText(p: Part): Name
    requires LegalPart(p)
  {
    match p
    case Plain(c) => [c]
    case Coded(hi, lo, upperHi, upperLo) => ['\\', 'x', DigitOf(hi, upperHi), DigitOf(lo, upperLo)]
  }

  /** No plain backslash stands before a plain `x`. */
  ghost predicate Legal(ps: seq<Part>) {
    && (forall i :: 0 <= i < |ps| ==> LegalPart(ps[i]))
    && (forall i :: 0 <= i < |ps| - 1 ==> !(ps[i] == Plain('\\') && ps[i+1] == Plain('x')))
  }

  ghost function NameText(ps: seq<Part>): Name
    requires Legal(ps)
  {
    if ps == [] then [] else PartText(ps[0]) + NameText(ps[1..])
  }

  ghost function NameMeant(ps: seq<Part>): string
    requires Legal(ps)
  {
    if ps == [] then ""
    else (match ps[0] case Plain(c) => [c] case Coded(hi, lo, _, _) => [(16 * hi + lo) as char]) + NameMeant(ps[1..])
  }

  ghost predicate AnyCoded(ps: seq<Part>) {
    exists i :: 0 <= i < |ps| && ps[i].Coded?
  }

  /** Something that a strictly mangled name cannot contain. */
  ghost predicate AnyForbidden(ps: seq<Part>) {
    exists i :: 0 <= i < |ps| && ps[i].Plain? && ps[i].c != '\\' && !Allowed(ps[i].c)
  }

  lemma DigitOfIs(n: nat, upper: bool)
    requires n < 16
    ensures IsHexDigit(DigitOf(n, upper)) && HexValue(DigitOf(n, upper)) == n
  {
  }

  lemma NotAnEscape(ps: seq<Part>, u: Name)
    requires Legal(ps) && ps != [] && ps[0].Plain? && (u == [] || u[0] != 'x')
    ensures !EscapeAt(NameText(ps) + u, 0)
  {
    if |ps| > 1 {
      assert ps[1..][0] == ps[1];
      var rest := NameText(ps[1..]);
      assert rest == PartText(ps[1]) + NameText(ps[1..][1..]);
      assert (NameText(ps) + u)[1] == rest[0] == PartText(ps[1])[0];
    } else {
      assert ps[1..] == [];
    }
  }

  lemma PlainFirst(ps: seq<Part>, u: Name, strict: bool)
    requires Legal(ps) && ps != [] && ps[0].Plain? && (u == [] || u[0] != 'x')
    ensures Unmangle(NameText(ps) + u, strict) ==
      if strict && ps[0].c != '\\' && !Allowed(ps[0].c) then Unmangled(-1, "")
      else Decoded(ps[0].c, Unmangle(NameText(ps[1..]) + u, strict), false)
  {
    NotAnEscape(ps, u);
    WhitelistIs(ps[0].c);
    assert (NameText(ps) + u)[1..] == NameText(ps[1..]) + u;
  }

  lemma UnmangleCode(hi: Byte, lo: Byte, t: Name, strict: bool)
    requires IsHexDigit(hi) && IsHexDigit(lo)
    ensures Unmangle(['\\', 'x', hi, lo] + t, strict) ==
            Decoded((16 * HexValue(hi) + HexValue(lo)) as char, Unmangle(t, strict), true)
  {
    hide HexValue, IsHexDigit, Whitelisted;
    var s := ['\\', 'x', hi, lo] + t;
    assert s[4..] == t;
  }

  lemma CodedFirst(ps: seq<Part>, u: Name, strict: bool)
    requires Legal(ps) && ps != [] && ps[0].Coded?
    ensures Unmangle(NameText(ps) + u, strict) ==
            Decoded((16 * ps[0].hi + ps[0].lo) as char, Unmangle(NameText(ps[1..]) + u, strict), true)
  {
    hide Unmangle;
    DigitOfIs(ps[0].hi, ps[0].upperHi);
    DigitOfIs(ps[0].lo, ps[0].upperLo);
    var more := NameText(ps[1..]);
    assert NameText(ps) + u == PartText(ps[0]) + (more + u);
    UnmangleCode(DigitOf(ps[0].hi, ps[0].upperHi), DigitOf(ps[0].lo, ps[0].upperLo), more + u, strict);
  }

  lemma AnyFirst(ps: seq<Part>)
    requires ps != []
    ensures AnyCoded(ps) <==> ps[0].Coded? || AnyCoded(ps[1..])
    ensures AnyForbidden(ps) <==> (ps[0].Plain? && ps[0].c != '\\' && !Allowed(ps[0].c)) || AnyForbidden(ps[1..])
  {
    var t := ps[1..];
    assert forall i :: 1 <= i < |ps| ==> ps[i] == t[i-1];
    assert forall i :: 0 <= i < |t| ==> t[i] == ps[i+1];
  }

  lemma {:induction false} UnmangleParts(ps: seq<Part>, u: Name, strict: bool)
    requires Legal(ps) && (u == [] || u[0] != 'x') && Unmangle(u, strict) == Unmangled(0, "")
    ensures strict && AnyForbidden(ps) ==> Unmangle(NameText(ps) + u, strict) == Unmangled(-1, "")
    ensures !(strict && AnyForbidden(ps)) ==>
            Unmangle(NameText(ps) + u, strict) == Unmangled(if AnyCoded(ps) then 1 else 0, NameMeant(ps))
  {
    hide Unmangle, AnyForbidden, AnyCoded;
    if ps == [] {
      assert NameText(ps) + u == u;
      AnyOfNone();
    } else {
      hide NameText;
      assert Legal(ps[1..]) by { assert forall i :: 0 <= i < |ps[1..]| ==> ps[1..][i] == ps[i+1]; }
      UnmangleParts(ps[1..], u, strict);
      AnyFirst(ps);
      if ps[0].Plain? { PlainFirst(ps, u, strict); } else { CodedFirst(ps, u, strict); }
    }
  }

  lemma AnyOfNone()
    ensures !AnyCoded([]) && !AnyForbidden([])
  {
  }

  /** Every such name is unmangled to what its parts mean; strictly, unless it has a forbidden character. */
  lemma UnmangleOfParts(ps: seq<Part>, strict: bool)
    requires Legal(ps)
    ensures strict && AnyForbidden(ps) ==> Unmangle(NameText(ps), strict) == Unmangled(-1, "")
    ensures !(strict && AnyForbidden(ps)) ==>
            Unmangle(NameText(ps), strict) == Unmangled(if AnyCoded(ps) then 1 else 0, NameMeant(ps))
  {
    assert Unmangle([], strict) == Unmangled(0, "");
    hide Unmangle, AnyForbidden, AnyCoded, NameText;
    UnmangleParts(ps, [], strict);
    assert NameText(ps) + [] == NameText(ps);
  }

  /** And ends before an escape that no number follows. */
  lemma UnmangleStops(ps: seq<Part>, c: Byte, t: Name, strict: bool)
    requires Legal(ps) && !(strict && AnyForbidden(ps))
    requires !('0' <= c <= '9' || 'a' <= c <= 'f' || 'A' <= c <= 'F') && c !in "+- \t\n\U{0b}\U{0c}\r"
    ensures Unmangle(NameText(ps) + (['\\', 'x', c] + t), strict) ==
            Unmangled(if AnyCoded(ps) then 1 else 0, NameMeant(ps))
  {
    var u := ['\\', 'x', c] + t;
    assert u[2..] == [c] + t;
    assert Unmangle(u, strict) == Unmangled(0, "");
    hide Unmangle, AnyForbidden, AnyCoded, NameText;
    UnmangleParts(ps, u, strict);
  }

  // ----- names of volumes -----

  /** Characters of volume group, volume and layer names. */
  predicate NameChar(c: char) {
    Alphanumeric(c) || c in "+-._"
  }

  ghost predicate NameOnly(s: string) {
    forall i :: 0 <= i < |s| ==> NameChar(s[i])
  }

  lemma NameCharsAreWhitelisted(c: char)
    requires NameChar(c)
    ensures 0 < c as int < 128 && Whitelisted(c)
  {
  }

  lemma {:induction false} HyphenedNameOnly(s: string)
    requires NameOnly(s)
    ensures NameOnly(Hyphened(s))
  {
    if s != "" { HyphenedNameOnly(s[1..]); }
  }

  lemma DmNameOnly(vg: string, lv: string, layer: string)
    requires NameOnly(vg) && NameOnly(lv) && NameOnly(layer)
    ensures NameOnly(DmName(vg, lv, layer))
  {
    HyphenedNameOnly(vg);
    HyphenedNameOnly(lv);
    HyphenedNameOnly(layer);
  }

  /** The same characters as a name that can be mangled. */
  lemma AsName(s: string) returns (n: Name)
    requires NameOnly(s)
    ensures n == s && AllWhitelisted(n)
  {
    forall i | 0 <= i < |s| ensures 0 < s[i] as int < 128 && Whitelisted(s[i]) { NameCharsAreWhitelisted(s[i]); }
    n := s;
  }

  /** The device name of a volume passes the mangling of either mode unchanged, if it fits. */
  method MangleVolumeName(vg: string, lv: string, layer: string, name: Name, bufLen: nat, mode: Mode)
    returns (code: int, buf: Name)
    requires NameOnly(vg) && NameOnly(lv) && NameOnly(layer) && name == DmName(vg, lv, layer) && mode != NoMangling
    requires bufLen >= DM_NAME_LEN
    ensures |name| + 1 <= bufLen ==> code == 0 && buf == name
  {
    DmNameOnly(vg, lv, layer);
    ghost var n := AsName(name);
    HexEncodeOfWhitelisted(name);
    UnmangleHexEncode(name, true);
    assert name != [];
    NothingRaw(name);
    code, buf := MangleName(name, bufLen, mode);
  }

  lemma {:induction false} NothingRaw(s: Name)
    requires AllWhitelisted(s)
    ensures !Refused(Pieces(s, true)) && PiecesText(Pieces(s, true)) == s
  {
    HexEncodeOfWhitelisted(s);
    HexNameIsAutoFixedPoint(s);
  }

  // ----- names with more parts -----

  /** Names joined by hyphens, with the hyphens inside them doubled. */
  function Joined(ps: seq<string>): string
    requires ps != []
  {
    if |ps| == 1 then Hyphened(ps[0]) else Hyphened(ps[0]) + "-" + Joined(ps[1..])
  }

  ghost predicate Separable(ps: seq<string>) {
    ps != [] && forall i :: 1 <= i < |ps| ==> ps[i] != "" && ps[i][0] != '-'
  }

  lemma JoinedStarts(ps: seq<string>)
    requires ps != [] && ps[0] != ""
    ensures Joined(ps) != "" && Joined(ps)[0] == ps[0][0]
  {
    HyphenedFirst(ps[0]);
  }

  lemma FirstOfJoined(ps: seq<string>)
    requires Separable(ps)
    ensures var c := FirstComponent(Joined(ps));
      c.part == ps[0] && Joined(ps)[c.next..] == if |ps| == 1 then "" else Joined(ps[1..])
  {
    hide FirstComponent, Hyphened;
    if |ps| == 1 {
      ComponentOfAll(ps[0]);
    } else {
      assert ps[1..][0] == ps[1];
      JoinedStarts(ps[1..]);
      ComponentBeforeHyphen(ps[0], Joined(ps[1..]));
      assert Joined(ps)[|Hyphened(ps[0])| + 1..] == Joined(ps[1..]);
    }
  }

  function PartAt(ps: seq<string>, i: nat): string {
    if i < |ps| then ps[i] else ""
  }

  lemma RestSeparable(ps: seq<string>)
    requires Separable(ps) && |ps| > 1
    ensures Separable(ps[1..]) && (|ps| > 2 ==> Separable(ps[2..]) && ps[1..][1..] == ps[2..])
  {
  }

  /** Splitting gives the first three parts, however many there are, and empty ones where there are fewer. */
  lemma SplitOfJoined(ps: seq<string>)
    requires Separable(ps)
    ensures SplitName(Joined(ps)) == Names(ps[0], PartAt(ps, 1), PartAt(ps, 2))
  {
    hide FirstComponent, Joined;
    FirstOfJoined(ps);
    NothingToRead();
    if |ps| > 1 {
      RestSeparable(ps);
      FirstOfJoined(ps[1..]);
      if |ps| > 2 { FirstOfJoined(ps[2..]); }
    } else {
      NothingAfter();
    }
  }

  lemma NothingAfter()
    ensures FirstComponent("") == Component("", 0) && ""[0..] == ""
  {
  }
}
