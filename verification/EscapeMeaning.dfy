/**
What any text means once it is unquoted.

Every text is a sequence of units: a character by itself, or the quote character together with
the one after it.  Unquoting drops the quote character of exactly those pairs whose second
character needs it.
*/
module EscapeMeaning {
  import opened Escaping

  datatype Unit = Char(c: char) | Pair(c: char)

  function UnitText(us: seq<Unit>, quote: char): string {
    if us == [] then ""
    else (match us[0] case Char(c) => [c] case Pair(c) => [quote, c]) + UnitText(us[1..], quote)
  }

  /** A quote character stands by itself only at the very end. */
  ghost predicate Proper(us: seq<Unit>, quote: char) {
    forall i :: 0 <= i < |us| - 1 ==> us[i] != Char(quote)
  }

  function Meaning(us: seq<Unit>, chars: string, quote: char): seq<Mark> {
    if us == [] then []
    else
      (match us[0]
       case Char(c) => [Mark(c, false)]
       case Pair(c) =>
         if c in chars || c == quote then [Mark(c, true)] else [Mark(quote, false), Mark(c, false)])
      + Meaning(us[1..], chars, quote)
  }

  lemma MarksOfChar(c: char, t: string, chars: string, quote: char)
    requires c != quote || t == ""
    ensures Marks([c] + t, chars, quote) == [Mark(c, false)] + Marks(t, chars, quote)
  {
    assert ([c] + t)[1..] == t;
  }

  lemma MarksOfPair(c: char, t: string, chars: string, quote: char)
    ensures Marks([quote, c] + t, chars, quote) ==
      (if c in chars || c == quote then [Mark(c, true)] else [Mark(quote, false), Mark(c, false)])
      + Marks(t, chars, quote)
  {
    assert ([quote, c] + t)[2..] == t && ([quote, c] + t)[1..] == [c] + t;
    if !(c in chars || c == quote) { MarksOfChar(c, t, chars, quote); }
  }

  /** Read unit by unit, a text means what its units mean. */
  lemma {:induction false} MarksOfUnits(us: seq<Unit>, chars: string, quote: char)
    requires Proper(us, quote)
    ensures Marks(UnitText(us, quote), chars, quote) == Meaning(us, chars, quote)
  {
    if us != [] {
      hide Marks;
      var rest := UnitText(us[1..], quote);
      MarksOfUnits(us[1..], chars, quote);
      match us[0]
      case Char(c) =>
        assert |us| == 1 ==> us[1..] == [];
        MarksOfChar(c, rest, chars, quote);
      case Pair(c) => MarksOfPair(c, rest, chars, quote);
    } else {
      assert Marks("", chars, quote) == [];
    }
  }

  /** And every text has such units. */
  lemma {:induction false} EveryTextHasUnits(s: string, quote: char) returns (us: seq<Unit>)
    ensures Proper(us, quote) && UnitText(us, quote) == s
    decreases |s|
  {
    if s == "" {
      us := [];
    } else if s[0] == quote && |s| > 1 {
      var more := EveryTextHasUnits(s[2..], quote);
      us := [Pair(s[1])] + more;
      assert us[1..] == more && s == [quote, s[1]] + s[2..];
    } else {
      var more := EveryTextHasUnits(s[1..], quote);
      us := [Char(s[0])] + more;
      assert us[1..] == more && s == [s[0]] + s[1..];
      assert more != [] ==> UnitText(more, quote) != "";
    }
  }

  /** Unquoting one character is the same with only that character to look for. */
  lemma {:induction false} UnquotedIsText(s: string, orig: char, quote: char)
    ensures Unquoted(s, orig, quote) == Text(Marks(s, [orig], quote))
    decreases |s|
  {
    if s == "" {
    } else if s[0] == quote && |s| > 1 && (s[1] == orig || s[1] == quote) {
      UnquotedIsText(s[2..], orig, quote);
      TextOfFirst(Mark(s[1], true), Marks(s[2..], [orig], quote));
    } else {
      UnquotedIsText(s[1..], orig, quote);
      TextOfFirst(Mark(s[0], false), Marks(s[1..], [orig], quote));
    }
  }

  lemma TextOfFirst(m: Mark, ms: seq<Mark>)
    ensures Text([m] + ms) == [m.c] + Text(ms)
  {
    assert ([m] + ms)[1..] == ms;
  }

  lemma UnquotedOfUnits(us: seq<Unit>, orig: char, quote: char)
    requires Proper(us, quote)
    ensures Unquoted(UnitText(us, quote), orig, quote) == Text(Meaning(us, [orig], quote))
  {
    UnquotedIsText(UnitText(us, quote), orig, quote);
    MarksOfUnits(us, [orig], quote);
  }
}
