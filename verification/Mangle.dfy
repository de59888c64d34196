/**
Mangling of device names (libdm-common.c): every character outside a whitelist becomes
`\xNN`.  In automatic mode a name that is already mangled is kept, and a mixture is
refused.
*/
module Mangle {

  /** A character of a C string. */
  type Byte = c: char | 0 < c as int < 256 witness 'a'

  type Name = seq<Byte>

  const BACKSLASH: Byte := '\\'
  const X: Byte := 'x'
  const DM_NAME_LEN: nat := 128

  /** `dm_string_mangling_t` */
  datatype Mode = NoMangling | Auto | Hex

  /** `_is_whitelisted_char` */
  predicate Whitelisted(c: Byte) {
    || '0' <= c <= '9' || 'A' <= c <= 'Z' || 'a' <= c <= 'z'
    || c == '#' || c == '+' || c == '-' || c == '.' || c == ':' || c == '=' || c == '@' || c == '_'
  }

  ghost predicate AllWhitelisted(s: Name) {
    forall i :: 0 <= i < |s| ==> Whitelisted(s[i])
  }

  function HexDigit(n: nat): (d: Byte)
    requires n < 16
  {
    if n < 10 then ('0' as int + n) as char else ('a' as int + n - 10) as char
  }

  predicate IsHexDigit(c: char) {
    '0' <= c <= '9' || 'a' <= c <= 'f' || 'A' <= c <= 'F'
  }

  function HexValue(c: char): nat
    requires IsHexDigit(c)
    ensures HexValue(c) < 16
  {
    if '0' <= c <= '9' then c as int - '0' as int
    else if 'a' <= c <= 'f' then c as int - 'a' as int + 10
    else c as int - 'A' as int + 10
  }

  /** One character in hexadecimal, as `sprintf` writes it. */
  function HexChar(c: Byte): Name {
    [BACKSLASH, X, HexDigit(c as int / 16), HexDigit(c as int % 16)]
  }

  function EncodedChar(c: Byte): Name {
    if Whitelisted(c) then [c] else HexChar(c)
  }

  /** The HEX form of a name. */
  function HexEncode(s: Name): Name {
    if s == [] then [] else EncodedChar(s[0]) + HexEncode(s[1..])
  }

  predicate EscapeAt(s: Name, i: nat) {
    i + 1 < |s| && s[i] == BACKSLASH && s[i+1] == X
  }

  // ----- unmangling -----

  /** `code` is -1, 0 or 1 as returned.  What `sscanf` does with a malformed field is left open. */
  datatype Unmangled = Unmangled(code: int, text: string) | Unspecified

  function Decoded(c: char, rest: Unmangled, applied: bool): Unmangled {
    if rest.Unspecified? then Unspecified
    else if rest.code < 0 then rest
    else Unmangled(if applied then 1 else rest.code, [c] + rest.text)
  }

  /** Does `%2x` convert nothing at all from here? */
  predicate NoConversion(s: Name) {
    s != [] && !IsHexDigit(s[0]) && s[0] != '+' && s[0] != '-' && s[0] != ' ' && !('\t' <= s[0] <= '\r')
  }

  /** `unmangle_name` */
  function Unmangle(s: Name, strict: bool): Unmangled {
    if s == [] then Unmangled(0, "")
    else if strict && !(Whitelisted(s[0]) || s[0] == BACKSLASH) then Unmangled(-1, "")
    else if EscapeAt(s, 0) then
      if |s| >= 4 && IsHexDigit(s[2]) && IsHexDigit(s[3]) then
        Decoded((16 * HexValue(s[2]) + HexValue(s[3])) as char, Unmangle(s[4..], strict), true)
      else if NoConversion(s[2..]) then Unmangled(0, "")
      else Unspecified
    else Decoded(s[0], Unmangle(s[1..], strict), false)
  }

  lemma HexDigitsDecode(c: Byte)
    ensures var h := HexChar(c);
            IsHexDigit(h[2]) && IsHexDigit(h[3]) && 16 * HexValue(h[2]) + HexValue(h[3]) == c as int
  {
  }

  lemma HexDigitIsWhitelisted(n: nat)
    requires n < 16
    ensures Whitelisted(HexDigit(n)) && HexDigit(n) != X
  {
  }

  /** A HEX name consists of whitelisted characters and backslashes. */
  lemma {:induction false} HexEncodeIsClean(s: Name)
    ensures forall i :: 0 <= i < |HexEncode(s)| ==> Whitelisted(HexEncode(s)[i]) || HexEncode(s)[i] == BACKSLASH
  {
    if s != [] {
      HexEncodeIsClean(s[1..]);
      HexDigitIsWhitelisted(s[0] as int / 16);
      HexDigitIsWhitelisted(s[0] as int % 16);
    }
  }

  /** Unmangling a HEX name gives the original, and says whether there was anything to do. */
  lemma {:induction false} UnmangleHexEncode(s: Name, strict: bool)
    ensures Unmangle(HexEncode(s), strict) == Unmangled(if AllWhitelisted(s) then 0 else 1, s)
  {
    if s != [] {
      var rest := s[1..];
      var e := HexEncode(s);
      UnmangleHexEncode(rest, strict);
      assert AllWhitelisted(s) <==> Whitelisted(s[0]) && AllWhitelisted(rest);
      assert [s[0]] + rest == s;
      if Whitelisted(s[0]) {
        assert e[1..] == HexEncode(rest);
        assert e[0] == s[0] != BACKSLASH;
      } else {
        HexDigitsDecode(s[0]);
        assert e[..4] == HexChar(s[0]) && e[4..] == HexEncode(rest);
        assert e[2] == HexChar(s[0])[2] && e[3] == HexChar(s[0])[3];
      }
    }
  }

  lemma {:induction false} HexEncodeOfWhitelisted(s: Name)
    ensures AllWhitelisted(s) ==> HexEncode(s) == s
  {
    if s != [] {
      HexEncodeOfWhitelisted(s[1..]);
      assert AllWhitelisted(s) ==> AllWhitelisted(s[1..]);
      assert s == [s[0]] + s[1..];
    }
  }

  // ----- mangling piece by piece -----

  /** What the mangler sees at one place of a name. */
  datatype Piece = Kept(c: Byte) | Raw(c: Byte) | Escape(four: Name) | Broken

  /** The pieces of a name; only the automatic mode takes escapes for what they are. */
  function Pieces(s: Name, auto: bool): seq<Piece> {
    if s == [] then []
    else if auto && EscapeAt(s, 0) then if |s| < 4 then [Broken] else [Escape(s[..4])] + Pieces(s[4..], auto)
    else if Whitelisted(s[0]) then [Kept(s[0])] + Pieces(s[1..], auto)
    else [Raw(s[0])] + Pieces(s[1..], auto)
  }

  function PieceText(p: Piece): Name {
    match p
    case Kept(c) => [c]
    case Raw(c) => HexChar(c)
    case Escape(four) => four
    case Broken => []
  }

  function PiecesText(ps: seq<Piece>): Name {
    if ps == [] then [] else PieceText(ps[0]) + PiecesText(ps[1..])
  }

  ghost predicate HasRaw(ps: seq<Piece>) {
    exists i :: 0 <= i < |ps| && ps[i].Raw?
  }

  ghost predicate HasEscape(ps: seq<Piece>) {
    exists i :: 0 <= i < |ps| && ps[i].Escape?
  }

  ghost predicate IsBroken(ps: seq<Piece>) {
    exists i :: 0 <= i < |ps| && ps[i].Broken?
  }

  /** Mangled and unmangled characters mixed, or an escape cut off at the end. */
  ghost predicate Refused(ps: seq<Piece>) {
    IsBroken(ps) || (HasRaw(ps) && HasEscape(ps))
  }

  ghost predicate Mixed(ps: seq<Piece>, need: int) {
    need == if HasRaw(ps) then 1 else if HasEscape(ps) then 0 else -1
  }

  lemma PiecesTextAppend(ps: seq<Piece>, p: Piece)
    ensures PiecesText(ps + [p]) == PiecesText(ps) + PieceText(p)
  {
    if ps == [] {
      assert ps + [p] == [p] && [p][1..] == [];
    } else {
      assert (ps + [p])[1..] == ps[1..] + [p];
      PiecesTextAppend(ps[1..], p);
    }
  }

  lemma {:induction false} PiecesTextGrows(ps: seq<Piece>, qs: seq<Piece>)
    ensures |PiecesText(ps)| <= |PiecesText(ps + qs)|
  {
    if ps == [] {
    } else {
      assert (ps + qs)[1..] == ps[1..] + qs;
      PiecesTextGrows(ps[1..], qs);
    }
  }

  /** One more piece: what it does to the text and to the three flags. */
  lemma OnePieceMore(ps: seq<Piece>, p: Piece, need: int)
    requires Mixed(ps, need) && !Refused(ps)
    ensures PiecesText(ps + [p]) == PiecesText(ps) + PieceText(p)
    ensures Refused(ps + [p]) <==> p.Broken? || (p.Raw? && need == 0) || (p.Escape? && need == 1)
    ensures Mixed(ps + [p], if p.Raw? then 1 else if p.Escape? && need != 1 then 0 else need)
  {
    PiecesTextAppend(ps, p);
    var all := ps + [p];
    assert forall i :: 0 <= i < |ps| ==> all[i] == ps[i];
    assert all[|ps|] == p;
    assert HasRaw(all) <==> HasRaw(ps) || p.Raw?;
    assert HasEscape(all) <==> HasEscape(ps) || p.Escape?;
    assert IsBroken(all) <==> IsBroken(ps) || p.Broken?;
  }

  /** Whatever comes later, a refused beginning stays refused. */
  lemma RefusedStays(ps: seq<Piece>, qs: seq<Piece>)
    requires Refused(ps)
    ensures Refused(ps + qs)
  {
    var all := ps + qs;
    assert forall i :: 0 <= i < |ps| ==> all[i] == ps[i];
    assert HasRaw(ps) ==> HasRaw(all);
    assert HasEscape(ps) ==> HasEscape(all);
    assert IsBroken(ps) ==> IsBroken(all);
  }

  lemma {:induction false} HeadAndTail(ps: seq<Piece>)
    requires ps != []
    ensures HasRaw(ps) <==> ps[0].Raw? || HasRaw(ps[1..])
    ensures HasEscape(ps) <==> ps[0].Escape? || HasEscape(ps[1..])
    ensures IsBroken(ps) <==> ps[0].Broken? || IsBroken(ps[1..])
  {
    var t := ps[1..];
    assert forall i :: 1 <= i < |ps| ==> ps[i] == t[i-1];
    assert forall i :: 0 <= i < |t| ==> t[i] == ps[i+1];
  }

  /** Without escapes the text of the pieces is the HEX form; without raw characters it is the name itself. */
  lemma {:induction false} TextOfPieces(s: Name, auto: bool)
    requires !IsBroken(Pieces(s, auto))
    ensures !HasEscape(Pieces(s, auto)) ==> PiecesText(Pieces(s, auto)) == HexEncode(s)
    ensures !HasRaw(Pieces(s, auto)) ==> PiecesText(Pieces(s, auto)) == s
    decreases |s|
  {
    if s != [] {
      var ps := Pieces(s, auto);
      var k := if auto && EscapeAt(s, 0) then 4 else 1;
      HeadAndTail(ps);
      FirstPiece(s, auto);
      hide Pieces, HasRaw, HasEscape, IsBroken, PieceText, HexEncode;
      TextOfPieces(s[k..], auto);
      assert s == s[..k] + s[k..];
    }
  }

  lemma FirstPiece(s: Name, auto: bool)
    requires s != [] && !IsBroken(Pieces(s, auto))
    ensures var k, ps := if auto && EscapeAt(s, 0) then 4 else 1, Pieces(s, auto);
      && ps != [] && k <= |s| && ps[1..] == Pieces(s[k..], auto)
      && (!ps[0].Escape? ==> k == 1 && HexEncode(s) == PieceText(ps[0]) + HexEncode(s[k..]))
      && (!ps[0].Raw? ==> PieceText(ps[0]) == s[..k])
  {
  }

  lemma {:induction false} RawIffNotWhitelisted(s: Name)
    ensures HasRaw(Pieces(s, false)) <==> !AllWhitelisted(s)
    ensures !HasEscape(Pieces(s, false)) && !IsBroken(Pieces(s, false))
  {
    if s != [] {
      HeadAndTail(Pieces(s, false));
      assert Pieces(s, false)[1..] == Pieces(s[1..], false);
      RawIffNotWhitelisted(s[1..]);
      assert AllWhitelisted(s) <==> Whitelisted(s[0]) && AllWhitelisted(s[1..]);
    }
  }

  lemma {:induction false} RawIsNotWhitelisted(s: Name)
    ensures HasRaw(Pieces(s, true)) ==> !AllWhitelisted(s)
    decreases |s|
  {
    if s != [] {
      var ps := Pieces(s, true);
      var k := if EscapeAt(s, 0) then 4 else 1;
      HeadAndTail(ps);
      if |s| >= k {
        assert ps[0].Broken? || ps[1..] == Pieces(s[k..], true);
        RawIsNotWhitelisted(s[k..]);
        assert AllWhitelisted(s) ==> AllWhitelisted(s[k..]);
      }
    }
  }

  lemma {:induction false} HexNameHasNoRawPiece(s: Name)
    ensures var ps := Pieces(HexEncode(s), true); !HasRaw(ps) && !IsBroken(ps)
  {
    if s != [] {
      var e, rest := HexEncode(s), HexEncode(s[1..]);
      HexNameHasNoRawPiece(s[1..]);
      var ps := Pieces(e, true);
      HeadAndTail(ps);
      if Whitelisted(s[0]) {
        assert e[1..] == rest && e[0] != BACKSLASH;
        assert ps[1..] == Pieces(rest, true);
      } else {
        assert e[..4] == HexChar(s[0]) && e[4..] == rest;
        assert ps[1..] == Pieces(rest, true);
      }
    }
  }

  /** A HEX name is a fixed point of the automatic mode. */
  lemma HexNameIsAutoFixedPoint(s: Name)
    ensures var ps := Pieces(HexEncode(s), true);
            !Refused(ps) && !HasRaw(ps) && PiecesText(ps) == HexEncode(s)
  {
    HexNameHasNoRawPiece(s);
    TextOfPieces(HexEncode(s), true);
  }

  // ----- mangling twice -----

  /** The text `\x5cx` stands at position `i`. */
  predicate TwiceAt(s: Name, i: nat) {
    i + 4 < |s| && s[i] == BACKSLASH && s[i+1] == X && s[i+2] == '5' && s[i+3] == 'c' && s[i+4] == X
  }

  ghost predicate HasEscapeText(s: Name) {
    exists i: nat :: EscapeAt(s, i)
  }

  /** `check_multiple_mangled_name_allowed` */
  ghost predicate MultipleMangledAllowed(mode: Mode, name: Name) {
    !(mode == Auto && exists i: nat :: TwiceAt(name, i))
  }

  /** Where a backslash stands in the HEX form of a character. */
  lemma BackslashStartsHexChar(c: Byte, i: nat)
    requires i < |EncodedChar(c)| && EncodedChar(c)[i] == BACKSLASH
    ensures i == 0 && !Whitelisted(c)
  {
    HexDigitIsWhitelisted(c as int / 16);
    HexDigitIsWhitelisted(c as int % 16);
  }

  lemma HexOfBackslash(c: Byte)
    ensures HexChar(c)[2] == '5' && HexChar(c)[3] == 'c' ==> c == BACKSLASH
    ensures HexChar(BACKSLASH) == [BACKSLASH, X, '5', 'c']
  {
    HexDigitsDecode(c);
  }

  /** An occurrence in the HEX form of `s` starts with the first character or lies behind it. */
  lemma TwiceAtStartOrLater(s: Name, i: nat)
    requires s != [] && TwiceAt(HexEncode(s), i)
    ensures (i == 0 && EscapeAt(s, 0)) ||
            (i >= |EncodedChar(s[0])| && TwiceAt(HexEncode(s[1..]), i - |EncodedChar(s[0])|))
  {
    var first, rest := EncodedChar(s[0]), HexEncode(s[1..]);
    if i < |first| {
      BackslashStartsHexChar(s[0], i);
      HexOfBackslash(s[0]);
      assert rest[0] == X;
      assert EncodedChar(s[1..][0])[0] == X;
    }
  }

  lemma {:induction false} TwiceImpliesEscape(s: Name, i: nat)
    requires TwiceAt(HexEncode(s), i)
    ensures HasEscapeText(s)
  {
    hide HexEncode;
    NoEmptyHex(s, i);
    TwiceAtStartOrLater(s, i);
    var k := |EncodedChar(s[0])|;
    if i >= k && TwiceAt(HexEncode(s[1..]), i - k) {
      TwiceImpliesEscape(s[1..], i - k);
      var j: nat :| EscapeAt(s[1..], j);
      assert EscapeAt(s, j + 1);
    } else {
      assert EscapeAt(s, 0);
    }
  }

  lemma NoEmptyHex(s: Name, i: nat)
    requires TwiceAt(HexEncode(s), i)
    ensures s != []
  {
  }

  lemma {:induction false} EscapeImpliesTwice(s: Name, j: nat)
    requires EscapeAt(s, j)
    ensures exists i: nat :: TwiceAt(HexEncode(s), i)
  {
    var e := HexEncode(s);
    if j == 0 {
      HexOfBackslash(BACKSLASH);
      assert e == HexChar(BACKSLASH) + (EncodedChar(s[1]) + HexEncode(s[1..][1..]));
      assert TwiceAt(e, 0);
    } else {
      assert EscapeAt(s[1..], j - 1);
      EscapeImpliesTwice(s[1..], j - 1);
      var i: nat :| TwiceAt(HexEncode(s[1..]), i);
      assert TwiceAt(e, |EncodedChar(s[0])| + i);
    }
  }

  /** The check against double mangling refuses the HEX form of exactly the names that contain an escape. */
  lemma CheckRefusesHexOfEscapes(s: Name)
    ensures !MultipleMangledAllowed(Auto, HexEncode(s)) <==> HasEscapeText(s)
  {
    if i: nat :| TwiceAt(HexEncode(s), i) {
      TwiceImpliesEscape(s, i);
    }
    if j: nat :| EscapeAt(s, j) {
      EscapeImpliesTwice(s, j);
    }
  }

  lemma {:induction false} HexHasEscapeIffMangled(s: Name)
    ensures HasEscapeText(HexEncode(s)) <==> !AllWhitelisted(s)
  {
    if s != [] {
      var e, rest := HexEncode(s), HexEncode(s[1..]);
      HexHasEscapeIffMangled(s[1..]);
      assert AllWhitelisted(s) <==> Whitelisted(s[0]) && AllWhitelisted(s[1..]);
      if Whitelisted(s[0]) {
        EscapeBehind(s[0], rest);
      } else {
        assert EscapeAt(e, 0);
      }
    }
  }

  lemma EscapeBehind(c: Byte, rest: Name)
    requires c != BACKSLASH
    ensures HasEscapeText([c] + rest) <==> HasEscapeText(rest)
  {
    var e := [c] + rest;
    if j: nat :| EscapeAt(rest, j) {
      assert EscapeAt(e, j + 1);
    }
    if j: nat :| EscapeAt(e, j) {
      assert EscapeAt(rest, j - 1);
    }
  }

  /** Mangling twice is always caught when the first time changed anything, and never otherwise. */
  lemma DoubleManglingIsCaught(s: Name)
    ensures !MultipleMangledAllowed(Auto, HexEncode(HexEncode(s))) <==> !AllWhitelisted(s)
  {
    CheckRefusesHexOfEscapes(HexEncode(s));
    HexHasEscapeIffMangled(s);
  }

  // ----- the loops -----

  lemma PiecesStep(s: Name, i: nat, auto: bool)
    requires i < |s|
    ensures Pieces(s[i..], auto) ==
            if auto && EscapeAt(s, i)
            then if |s| - i < 4 then [Broken] else [Escape(s[i..i+4])] + Pieces(s[i+4..], auto)
            else if Whitelisted(s[i]) then [Kept(s[i])] + Pieces(s[i+1..], auto)
            else [Raw(s[i])] + Pieces(s[i+1..], auto)
  {
    assert s[i..][1..] == s[i+1..];
    if |s| - i >= 4 { assert s[i..][4..] == s[i+4..] && s[i..][..4] == s[i..i+4]; }
  }

  /** What the mangler returns for a nonempty name and a buffer that is not too small. */
  ghost predicate Mangles(s: Name, auto: bool, bufLen: nat, code: int, buf: Name) {
    var ps := Pieces(s, auto);
    if !Refused(ps) && |PiecesText(ps)| + 1 <= bufLen
    then code == (if HasRaw(ps) then 1 else 0) && buf == PiecesText(ps)
    else code == -1
  }

  /** A piece that is refused or does not fit ends the loop with an error. */
  lemma ErrorIsFinal(s: Name, auto: bool, bufLen: nat, ps: seq<Piece>, qs: seq<Piece>)
    requires Pieces(s, auto) == ps + qs
    requires Refused(ps) || |PiecesText(ps)| > bufLen
    ensures Mangles(s, auto, bufLen, -1, [])
  {
    if Refused(ps) {
      RefusedStays(ps, qs);
    } else {
      PiecesTextGrows(ps, qs);
    }
  }

  function PieceAt(s: Name, i: nat, auto: bool): Piece
    requires i < |s|
  {
    if auto && EscapeAt(s, i) then if |s| - i < 4 then Broken else Escape(s[i..i+4])
    else if Whitelisted(s[i]) then Kept(s[i])
    else Raw(s[i])
  }

  lemma PieceAtIsFirst(s: Name, i: nat, auto: bool)
    requires i < |s|
    ensures var p := PieceAt(s, i, auto);
            && Pieces(s[i..], auto) == [p] + Pieces(s[i..], auto)[1..]
            && (p.Escape? ==> i + 4 <= |s| && Pieces(s[i..], auto)[1..] == Pieces(s[i+4..], auto))
            && (p.Kept? || p.Raw? ==> Pieces(s[i..], auto)[1..] == Pieces(s[i+1..], auto))
  {
    PiecesStep(s, i, auto);
  }

  /** One turn of the loop of `mangle_name`, apart from the buffer: text to append, characters read, new flag. */
  method NextPiece(str: Name, i: nat, auto: bool, need: int) returns (ok: bool, text: Name, k: nat, next: int)
    requires i < |str| && (!auto ==> need != 0)
    ensures var p := PieceAt(str, i, auto);
            && ok == !(p.Broken? || (p.Raw? && need == 0) || (p.Escape? && need == 1))
            && (ok ==> text == PieceText(p) && k == (if p.Escape? then 4 else 1))
            && (ok ==> next == if p.Raw? then 1 else if p.Escape? then 0 else need)
  {
    text, k, next := [], 1, need;
    if auto && EscapeAt(str, i) {
      if |str| - i < 4 || need == 1 {
        return false, text, k, next;
      }
      return true, str[i..i+4], 4, 0;
    }
    if Whitelisted(str[i]) {
      return true, [str[i]], 1, need;
    }
    if auto && need == 0 {
      return false, text, k, next;
    }
    return true, HexChar(str[i]), 1, 1;
  }

  /** The loop of `mangle_name`. */
  method MangleLoop(str: Name, bufLen: nat, auto: bool) returns (code: int, buf: Name)
    ensures Mangles(str, auto, bufLen, code, buf)
  {
    hide Refused, Mixed, HasRaw, HasEscape, IsBroken, Pieces, PiecesText, PieceText, PieceAt, Mangles;
    var need := -1;
    buf := [];
    ghost var ps: seq<Piece> := [];
    var i := 0;
    NoPieces(str, auto);
    while i < |str|
      invariant 0 <= i <= |str| && (!auto ==> need != 0)
      invariant Pieces(str, auto) == ps + Pieces(str[i..], auto)
      invariant buf == PiecesText(ps) && |buf| <= bufLen && Mixed(ps, need) && !Refused(ps)
    {
      ghost var p := PieceAt(str, i, auto);
      PieceAtIsFirst(str, i, auto);
      ghost var more := Pieces(str[i..], auto)[1..];
      PieceIsPlain(str, i, auto);
      PieceOn(ps, Pieces(str[i..], auto));
      OnePieceMore(ps, p, need);
      ps := ps + [p];
      var ok, text, k, next := NextPiece(str, i, auto, need);
      if !ok || bufLen - |buf| < |text| {
        ErrorIsFinal(str, auto, bufLen, ps, more);
        return -1, [];
      }
      buf, i, need := buf + text, i + k, next;
    }
    assert str[i..] == [];
    EndOfName(str, auto, bufLen, ps, need);
    if bufLen - |buf| < 1 {
      return -1, [];
    }
    code := if need == -1 then 0 else need;
  }

  lemma PieceOn(ps: seq<Piece>, rest: seq<Piece>)
    requires rest != []
    ensures ps + rest == ps + [rest[0]] + rest[1..]
  {
  }

  lemma PieceIsPlain(s: Name, i: nat, auto: bool)
    requires i < |s|
    ensures !auto ==> !PieceAt(s, i, auto).Escape? && !PieceAt(s, i, auto).Broken?
  {
  }

  lemma NoPieces(s: Name, auto: bool)
    ensures s[0..] == s && Pieces(s, auto) == [] + Pieces(s, auto)
    ensures PiecesText([]) == [] && Mixed([], -1) && !Refused([])
  {
  }

  lemma EndOfName(s: Name, auto: bool, bufLen: nat, ps: seq<Piece>, need: int)
    requires Pieces(s, auto) == ps + Pieces([], auto) && Mixed(ps, need) && !Refused(ps)
    ensures |PiecesText(ps)| + 1 <= bufLen ==> Mangles(s, auto, bufLen, if need == -1 then 0 else need, PiecesText(ps))
    ensures |PiecesText(ps)| + 1 > bufLen ==> Mangles(s, auto, bufLen, -1, [])
  {
    assert ps + [] == ps;
  }

  /** `mangle_name` */
  method MangleName(str: Name, bufLen: nat, mode: Mode) returns (code: int, buf: Name)
    ensures str == [] ==> code == 0 && buf == []
    ensures str != [] && bufLen < DM_NAME_LEN ==> code == -1
    ensures str != [] && bufLen >= DM_NAME_LEN && mode == Hex && |HexEncode(str)| + 1 <= bufLen ==>
              code == (if AllWhitelisted(str) then 0 else 1) && buf == HexEncode(str)
    ensures str != [] && mode == Hex && |HexEncode(str)| + 1 > bufLen ==> code == -1
    ensures str != [] && mode != Hex ==> code == -1 || code == 0 || code == 1
    ensures str != [] && mode != Hex && code == 0 ==> buf == str
    ensures str != [] && mode != Hex && code == 1 ==> buf == HexEncode(str) && Unmangle(buf, true) == Unmangled(1, str)
    ensures str != [] && mode != Hex && bufLen >= DM_NAME_LEN ==>
              (code == -1 <==> Refused(Pieces(str, true)) || |PiecesText(Pieces(str, true))| + 1 > bufLen)
  {
    if str == [] {
      return 0, [];
    }
    if bufLen < DM_NAME_LEN {
      return -1, [];
    }
    code, buf := MangleLoop(str, bufLen, mode != Hex);
    if mode == Hex {
      RawIffNotWhitelisted(str);
      TextOfPieces(str, false);
    } else if code >= 0 {
      TextOfPieces(str, true);
      UnmangleHexEncode(str, true);
      RawIsNotWhitelisted(str);
    }
  }

  /** The text decoded so far, followed by what the rest of the name gives. */
  function Continued(done: string, r: int, rest: Unmangled): Unmangled {
    if rest.Unspecified? then Unspecified
    else if rest.code < 0 then rest
    else Unmangled(if r == 1 then 1 else rest.code, done + rest.text)
  }

  lemma ContinuedStep(done: string, r: int, c: char, rest: Unmangled, applied: bool)
    ensures Continued(done, r, Decoded(c, rest, applied)) == Continued(done + [c], if applied then 1 else r, rest)
  {
    if rest.Unmangled? { assert done + ([c] + rest.text) == done + [c] + rest.text; }
  }

  /** `unmangle_name` */
  method UnmangleName(str: Name, bufLen: nat, mode: Mode) returns (u: Unmangled)
    ensures str == [] ==> u == Unmangled(0, "")
    ensures str != [] && bufLen < DM_NAME_LEN ==> u == Unmangled(-1, "")
    ensures str != [] && bufLen >= DM_NAME_LEN ==> u == Unmangle(str, mode != NoMangling)
  {
    hide Decoded, Continued;
    var strict := mode != NoMangling;
    if str == [] {
      return Unmangled(0, "");
    }
    if bufLen < DM_NAME_LEN {
      return Unmangled(-1, "");
    }
    var i, r, done := 0, 0, "";
    assert str[0..] == str;
    StartOfName(Unmangle(str, strict));
    while i < |str|
      invariant 0 <= i <= |str| && 0 <= r <= 1
      invariant Unmangle(str, strict) == Continued(done, r, Unmangle(str[i..], strict))
    {
      ghost var s := str[i..];
      assert s[0] == str[i] && s[1..] == str[i+1..] && (EscapeAt(s, 0) <==> EscapeAt(str, i));
      EndsHere(done, r);
      if strict && !(Whitelisted(str[i]) || str[i] == BACKSLASH) {
        return Unmangled(-1, "");
      }
      if EscapeAt(str, i) {
        if |str| - i >= 4 && IsHexDigit(str[i+2]) && IsHexDigit(str[i+3]) {
          assert s[4..] == str[i+4..] && s[2] == str[i+2] && s[3] == str[i+3];
          var c := (16 * HexValue(str[i+2]) + HexValue(str[i+3])) as char;
          ContinuedStep(done, r, c, Unmangle(str[i+4..], strict), true);
          done, r := done + [c], 1;
          i := i + 4;
        } else if NoConversion(str[i+2..]) {
          assert s[2..] == str[i+2..];
          return Unmangled(r, done);
        } else {
          assert s[2..] == str[i+2..];
          return Unspecified;
        }
      } else {
        ContinuedStep(done, r, str[i], Unmangle(str[i+1..], strict), false);
        done := done + [str[i]];
        i := i + 1;
      }
    }
    assert str[i..] == [];
    EndsHere(done, r);
    return Unmangled(r, done);
  }

  lemma StartOfName(u: Unmangled)
    ensures Continued("", 0, u) == u
  {
    if u.Unmangled? { assert "" + u.text == u.text; }
  }

  lemma EndsHere(done: string, r: int)
    requires 0 <= r <= 1
    ensures Continued(done, r, Unmangled(0, "")) == Unmangled(r, done)
    ensures Continued(done, r, Unmangled(-1, "")) == Unmangled(-1, "")
    ensures Continued(done, r, Unspecified) == Unspecified
  {
    assert done + "" == done;
  }

  /** `mangle_name` in HEX mode and a strict `unmangle_name` undo each other, and their return codes agree. */
  method MangleThenUnmangle(str: Name, bufLen: nat) returns (code: int, u: Unmangled)
    requires bufLen >= DM_NAME_LEN && |HexEncode(str)| + 1 <= bufLen
    ensures u == Unmangled(code, str)
  {
    var buf;
    code, buf := MangleName(str, bufLen, Hex);
    UnmangleHexEncode(str, true);
    u := UnmangleName(buf, bufLen, Hex);
  }
}
