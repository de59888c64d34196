/**
Quoting and unquoting of characters in NUL-terminated strings (libdm-string.c).

A C string is the part of a buffer from some position up to the first NUL.  The in-place
scanners are proved equal to functions on the string they are given.
*/
module Escaping {

  const NUL: char := '\0'

  ghost predicate NulFree(s: string) {
    forall i :: 0 <= i < |s| ==> s[i] != NUL
  }

  /** The buffer holds the string `s` and its terminator at position `at`. */
  ghost predicate HoldsAt(buf: seq<char>, at: nat, s: string) {
    && at + |s| < |buf|
    && buf[at..at + |s|] == s
    && buf[at + |s|] == NUL
    && NulFree(s)
  }

  predicate Quotable(c: char, orig: char, quote: char, quoteQuote: bool) {
    c == orig || (c == quote && quoteQuote)
  }

  /** `_quote_characters`: every quotable character gets the quote character before it. */
  function Quoted(s: string, orig: char, quote: char, quoteQuote: bool): string {
    if s == "" then ""
    else (if Quotable(s[0], orig, quote, quoteQuote) then [quote, s[0]] else [s[0]])
         + Quoted(s[1..], orig, quote, quoteQuote)
  }

  function Occurrences(s: string, c1: char, c2: char): nat {
    if s == "" then 0 else (if s[0] == c1 || s[0] == c2 then 1 else 0) + Occurrences(s[1..], c1, c2)
  }

  /** `_unquote_one_character` on values. */
  function Unquoted(s: string, orig: char, quote: char): string {
    if s == "" then ""
    else if s[0] == quote && |s| > 1 && (s[1] == orig || s[1] == quote) then [s[1]] + Unquoted(s[2..], orig, quote)
    else [s[0]] + Unquoted(s[1..], orig, quote)
  }

  function EscapeDoubleQuotes(s: string): string {
    Quoted(s, '\"', '\\', true)
  }

  function UnescapeDoubleQuotes(s: string): string {
    Unquoted(s, '\"', '\\')
  }

  /** Unquoting undoes quoting, for every string. */
  lemma {:induction false} UnquotedQuoted(s: string, orig: char, quote: char)
    ensures Unquoted(Quoted(s, orig, quote, true), orig, quote) == s
  {
    if s != "" {
      UnquotedQuoted(s[1..], orig, quote);
      var q := Quoted(s, orig, quote, true);
      if Quotable(s[0], orig, quote, true) {
        assert q[2..] == Quoted(s[1..], orig, quote, true);
      } else {
        assert q[1..] == Quoted(s[1..], orig, quote, true);
      }
    }
  }

  lemma {:induction false} QuotedLength(s: string, orig: char, quote: char)
    ensures |Quoted(s, orig, quote, true)| == |s| + Occurrences(s, orig, quote)
    ensures |Quoted(s, orig, quote, false)| == |s| + Occurrences(s, orig, orig)
  {
    if s != "" { QuotedLength(s[1..], orig, quote); }
  }

  lemma {:induction false} QuotedConcat(s: string, t: string, orig: char, quote: char, quoteQuote: bool)
    ensures Quoted(s + t, orig, quote, quoteQuote) ==
            Quoted(s, orig, quote, quoteQuote) + Quoted(t, orig, quote, quoteQuote)
  {
    if s == "" {
      assert s + t == t;
    } else {
      assert (s + t)[1..] == s[1..] + t;
      QuotedConcat(s[1..], t, orig, quote, quoteQuote);
    }
  }

  lemma {:induction false} QuotedNulFree(s: string, orig: char, quote: char, quoteQuote: bool)
    requires NulFree(s) && quote != NUL
    ensures NulFree(Quoted(s, orig, quote, quoteQuote))
  {
    if s != "" { QuotedNulFree(s[1..], orig, quote, quoteQuote); }
  }

  lemma {:induction false} UnquotedNulFree(s: string, orig: char, quote: char)
    requires NulFree(s)
    ensures NulFree(Unquoted(s, orig, quote)) && |Unquoted(s, orig, quote)| <= |s|
    decreases |s|
  {
    if s == "" {
    } else if s[0] == quote && |s| > 1 && (s[1] == orig || s[1] == quote) {
      UnquotedNulFree(s[2..], orig, quote);
    } else {
      UnquotedNulFree(s[1..], orig, quote);
    }
  }

  /** `_count_chars` */
  method CountChars(str: string, len: nat, count: nat, c1: char, c2: char) returns (len': nat, count': nat)
    ensures len' == len + |str| && count' == count + Occurrences(str, c1, c2)
  {
    len', count' := len, count;
    for i := 0 to |str|
      invariant len' == len + i
      invariant count' + Occurrences(str[i..], c1, c2) == count + Occurrences(str, c1, c2)
    {
      if str[i] == c1 || str[i] == c2 {
        count' := count' + 1;
      }
      len' := len' + 1;
    }
  }

  /** `dm_escaped_len` and `dm_escape_double_quotes`: the length is that of the escaped string and its terminator. */
  method EscapedLen(str: string) returns (len: nat)
    ensures len == |EscapeDoubleQuotes(str)| + 1
  {
    var count;
    len, count := CountChars(str, 1, 0, '\"', '\\');
    len := len + count;
    QuotedLength(str, '\"', '\\');
  }

  /** What the buffer holds from `from` to `to` is `s`. */
  ghost predicate Written(out: array<char>, from: nat, s: string)
    reads out
  {
    from + |s| <= out.Length && forall j :: from <= j < from + |s| ==> out[j] == s[j - from]
  }

  lemma QuotedStep(all: string, n: nat, src: string, i: nat, orig: char, quote: char, quoteQuote: bool)
    requires n <= |all| && i < |src| && all[n..] == Quoted(src[i..], orig, quote, quoteQuote)
    ensures Quotable(src[i], orig, quote, quoteQuote) ==>
              n + 2 <= |all| && all[n] == quote && all[n+1] == src[i]
              && all[n+2..] == Quoted(src[i+1..], orig, quote, quoteQuote)
    ensures !Quotable(src[i], orig, quote, quoteQuote) ==>
              n + 1 <= |all| && all[n] == src[i] && all[n+1..] == Quoted(src[i+1..], orig, quote, quoteQuote)
  {
    var rest := Quoted(src[i+1..], orig, quote, quoteQuote);
    assert src[i..][1..] == src[i+1..];
    if Quotable(src[i], orig, quote, quoteQuote) {
      assert all[n..] == [quote, src[i]] + rest;
      assert all[n] == all[n..][0] && all[n+1] == all[n..][1];
      assert all[n+2..] == all[n..][2..] == rest;
    } else {
      assert all[n..] == [src[i]] + rest;
      assert all[n] == all[n..][0];
      assert all[n+1..] == all[n..][1..] == rest;
    }
  }

  /** `_quote_characters`: copies `src` to `out` from position `o` on and returns the position after it. */
  method QuoteCharacters(out: array<char>, o: nat, src: string, orig: char, quote: char,
                         quoteQuote: bool) returns (o': nat)
    requires o + |Quoted(src, orig, quote, quoteQuote)| <= out.Length
    modifies out
    ensures o' == o + |Quoted(src, orig, quote, quoteQuote)|
    ensures Written(out, o, Quoted(src, orig, quote, quoteQuote))
    ensures forall j :: 0 <= j < out.Length && !(o <= j < o') ==> out[j] == old(out[j])
  {
    o' := o;
    ghost var all := Quoted(src, orig, quote, quoteQuote);
    assert src[0..] == src;
    for i := 0 to |src|
      invariant o <= o' <= o + |all|
      invariant all[o' - o..] == Quoted(src[i..], orig, quote, quoteQuote)
      invariant forall j :: o <= j < o' ==> out[j] == all[j - o]
      invariant forall j :: 0 <= j < out.Length && !(o <= j < o') ==> out[j] == old(out[j])
    {
      QuotedStep(all, o' - o, src, i, orig, quote, quoteQuote);
      if src[i] == orig || (src[i] == quote && quoteQuote) {
        out[o'] := quote;
        o' := o' + 1;
      }
      out[o'] := src[i];
      o' := o' + 1;
    }
  }

  /** `dm_escape_double_quotes` fills a buffer of `dm_escaped_len` bytes exactly. */
  method Escape(src: string) returns (out: array<char>)
    requires NulFree(src)
    ensures fresh(out) && out.Length == |EscapeDoubleQuotes(src)| + 1
    ensures HoldsAt(out[..], 0, EscapeDoubleQuotes(src))
  {
    var len := EscapedLen(src);
    out := new char[len];
    var o := QuoteCharacters(out, 0, src, '\"', '\\', true);
    out[o] := NUL;
    QuotedNulFree(src, '\"', '\\', true);
    assert out[..][0..o] == EscapeDoubleQuotes(src);
  }

  // ----- unquoting in place -----

  /** Position `i` of the text starts a quoted pair. */
  predicate PairAt(s: string, i: nat, orig: char, quote: char) {
    i + 1 < |s| && s[i] == quote && (s[i+1] == orig || s[i+1] == quote)
  }

  lemma {:induction false} UnquotedPrefix(s: string, i: nat, orig: char, quote: char)
    requires i <= |s| && forall j :: 0 <= j < i ==> !PairAt(s, j, orig, quote)
    ensures Unquoted(s, orig, quote) == s[..i] + Unquoted(s[i..], orig, quote)
    decreases i
  {
    if i == 0 {
      assert s[0..] == s;
    } else {
      assert !PairAt(s, 0, orig, quote);
      forall j | 0 <= j < i - 1 ensures !PairAt(s[1..], j, orig, quote) {
        assert !PairAt(s, j + 1, orig, quote);
      }
      UnquotedPrefix(s[1..], i - 1, orig, quote);
      assert s[1..][..i-1] == s[1..i] && s[1..][i-1..] == s[i..];
      assert s[..i] == [s[0]] + s[1..i];
    }
  }

  /** One turn of the copying loop of `_unquote_one_character`. */
  lemma UnquotedStep(s: string, i: nat, orig: char, quote: char)
    requires i < |s|
    ensures PairAt(s, i, orig, quote) ==> Unquoted(s[i..], orig, quote) == [s[i+1]] + Unquoted(s[i+2..], orig, quote)
    ensures !PairAt(s, i, orig, quote) ==> Unquoted(s[i..], orig, quote) == [s[i]] + Unquoted(s[i+1..], orig, quote)
  {
    assert s[i..][1..] == s[i+1..];
    if PairAt(s, i, orig, quote) { assert s[i..][2..] == s[i+2..]; }
  }

  /** The string of `s` starting at its position `i`, as the buffer holds it. */
  ghost predicate Intact(buf: array<char>, at: nat, s: string, i: nat)
    requires i <= |s|
    reads buf
  {
    && at + |s| < buf.Length
    && (forall j :: at + i <= j < at + |s| ==> buf[j] == s[j - at])
    && buf[at + |s|] == NUL
  }

  lemma Holds(buf: array<char>, at: nat, s: string)
    requires Written(buf, at, s) && at + |s| < buf.Length && buf[at + |s|] == NUL && NulFree(s)
    ensures HoldsAt(buf[..], at, s)
  {
    assert buf[..][at..at + |s|] == s;
  }

  lemma Unholds(buf: array<char>, at: nat, s: string)
    requires HoldsAt(buf[..], at, s)
    ensures Intact(buf, at, s, 0) && NulFree(s)
  {
    forall j | at <= j < at + |s| ensures buf[j] == s[j - at] {
      assert buf[..][at..at + |s|][j - at] == s[j - at];
    }
  }

  /** If the rest of `all` is `c` and then `rest`, so is its next character. */
  lemma Uncons<T>(all: seq<T>, q: nat, c: T, rest: seq<T>)
    requires q <= |all| && all[q..] == [c] + rest
    ensures q < |all| && all[q] == c && all[q+1..] == rest
  {
    assert all[q] == all[q..][0];
    assert all[q+1..] == all[q..][1..];
  }

  /** The second loop of `_unquote_one_character`: copy down from `src` to `out`. */
  method CopyUnquoted(buf: array<char>, at: nat, ghost s: string, ghost all: string, start: nat, orig: char,
                      quote: char)
    requires orig != NUL && quote != NUL && NulFree(s)
    requires start + 2 <= |s| && start + 1 <= |all| && Intact(buf, at, s, start + 2)
    requires all[start + 1..] == Unquoted(s[start + 2..], orig, quote)
    requires forall j :: at <= j < at + start + 1 ==> buf[j] == all[j - at]
    modifies buf
    ensures Written(buf, at, all) && |all| < |s| && buf[at + |all|] == NUL
    ensures forall j :: 0 <= j < buf.Length && !(at <= j <= at + |s|) ==> buf[j] == old(buf[j])
  {
    hide Unquoted;
    var src, out := at + start + 2, at + start + 1;
    ghost var p, q := start + 2, start + 1;
    while buf[src] != NUL
      invariant src == at + p && out == at + q && start < q < p <= |s| && q <= |all|
      invariant Intact(buf, at, s, p)
      invariant all[q..] == Unquoted(s[p..], orig, quote)
      invariant forall j :: at <= j < out ==> buf[j] == all[j - at]
      invariant forall j :: 0 <= j < buf.Length && !(at <= j <= at + |s|) ==> buf[j] == old(buf[j])
      decreases |s| - p
    {
      var c := buf[src];
      UnquotedStep(s, p, orig, quote);
      src := src + 1;
      if c == quote && (buf[src] == orig || buf[src] == quote) {
        c := buf[src];
        src := src + 1;
        Uncons(all, q, s[p+1], Unquoted(s[p+2..], orig, quote));
        p := p + 2;
      } else {
        Uncons(all, q, s[p], Unquoted(s[p+1..], orig, quote));
        p := p + 1;
      }
      buf[out] := c;
      out := out + 1;
      q := q + 1;
    }
    assert s[p..] == "";
    UnquotedEmpty(orig, quote);
    buf[out] := NUL;
  }

  lemma UnquotedEmpty(orig: char, quote: char)
    ensures Unquoted("", orig, quote) == ""
  {
  }

  /** The result up to and including the first pair, which stands at position `i`. */
  lemma FirstPair(s: string, i: nat, orig: char, quote: char)
    requires PairAt(s, i, orig, quote) && forall j :: 0 <= j < i ==> !PairAt(s, j, orig, quote)
    ensures var all := Unquoted(s, orig, quote);
            && i < |all| && all[..i] == s[..i] && all[i] == s[i+1]
            && all[i+1..] == Unquoted(s[i+2..], orig, quote)
  {
    var all := Unquoted(s, orig, quote);
    UnquotedPrefix(s, i, orig, quote);
    UnquotedStep(s, i, orig, quote);
    assert all[i..] == Unquoted(s[i..], orig, quote);
    Uncons(all, i, s[i+1], Unquoted(s[i+2..], orig, quote));
  }

  /** `_unquote_one_character` */
  method UnquoteOneCharacter(buf: array<char>, at: nat, ghost s: string, orig: char, quote: char)
    requires HoldsAt(buf[..], at, s) && orig != NUL && quote != NUL
    modifies buf
    ensures HoldsAt(buf[..], at, Unquoted(s, orig, quote))
    ensures forall j :: 0 <= j < buf.Length && !(at <= j <= at + |s|) ==> buf[j] == old(buf[j])
  {
    hide Unquoted;
    Unholds(buf, at, s);
    var src := at;
    while buf[src] != NUL
      invariant at <= src <= at + |s|
      invariant forall j :: 0 <= j < src - at ==> !PairAt(s, j, orig, quote)
      invariant buf[..] == old(buf[..]) && Intact(buf, at, s, 0)
      decreases at + |s| - src
    {
      var i := src - at;
      var c := buf[src];
      src := src + 1;
      if c == quote && (buf[src] == orig || buf[src] == quote) {
        ghost var all := Unquoted(s, orig, quote);
        FirstPair(s, i, orig, quote);
        buf[src - 1] := buf[src];
        CopyUnquoted(buf, at, s, all, i, orig, quote);
        UnquotedNulFree(s, orig, quote);
        Holds(buf, at, Unquoted(s, orig, quote));
        return;
      }
    }
    UnquotedPrefix(s, |s|, orig, quote);
    UnquotedEmpty(orig, quote);
    assert s[..|s|] == s && s[|s|..] == "";
  }

  /** The law the escaping exists for, in place: unescaping an escaped string gives it back. */
  method EscapeThenUnescape(src: string) returns (buf: array<char>)
    requires NulFree(src)
    ensures fresh(buf) && HoldsAt(buf[..], 0, src)
  {
    buf := Escape(src);
    UnquotedQuoted(src, '\"', '\\');
    UnquoteOneCharacter(buf, 0, EscapeDoubleQuotes(src), '\"', '\\');
  }

  // ----- several characters at once -----

  /** A character of the result, and whether it was quoted in the input. */
  datatype Mark = Mark(c: char, quoted: bool)

  predicate Special(c: char, chars: string, quote: char) {
    c in chars || c == quote
  }

  /** Left-to-right unquoting of all of `chars` and of the quote character. */
  function Marks(s: string, chars: string, quote: char): seq<Mark> {
    if s == "" then []
    else if s[0] == quote && |s| > 1 && Special(s[1], chars, quote)
    then [Mark(s[1], true)] + Marks(s[2..], chars, quote)
    else [Mark(s[0], false)] + Marks(s[1..], chars, quote)
  }

  function Text(ms: seq<Mark>): (r: string)
    ensures |r| == |ms| && forall i :: 0 <= i < |r| ==> r[i] == ms[i].c
  {
    if ms == [] then "" else [ms[0].c] + Text(ms[1..])
  }

  datatype Position = Nowhere | At(index: nat)

  /** `p` is where the first unquoted `c` stands in the result. */
  ghost predicate FirstUnquoted(ms: seq<Mark>, c: char, p: Position) {
    match p
    case Nowhere => Mark(c, false) !in ms
    case At(i) => i < |ms| && ms[i] == Mark(c, false) && Mark(c, false) !in ms[..i]
  }

  lemma MarksStep(s: string, i: nat, chars: string, quote: char)
    requires i < |s|
    ensures i + 1 < |s| && s[i] == quote && Special(s[i+1], chars, quote) ==>
              Marks(s[i..], chars, quote) == [Mark(s[i+1], true)] + Marks(s[i+2..], chars, quote)
    ensures !(i + 1 < |s| && s[i] == quote && Special(s[i+1], chars, quote)) ==>
              Marks(s[i..], chars, quote) == [Mark(s[i], false)] + Marks(s[i+1..], chars, quote)
  {
    assert s[i..][1..] == s[i+1..];
    if i + 1 < |s| { assert s[i..][2..] == s[i+2..]; }
  }

  lemma {:induction false} MarksNulFree(s: string, chars: string, quote: char)
    requires NulFree(s)
    ensures |Marks(s, chars, quote)| <= |s|
    ensures forall i :: 0 <= i < |Marks(s, chars, quote)| ==> Marks(s, chars, quote)[i].c != NUL
    decreases |s|
  {
    if s == "" {
    } else if s[0] == quote && |s| > 1 && Special(s[1], chars, quote) {
      MarksNulFree(s[2..], chars, quote);
    } else {
      MarksNulFree(s[1..], chars, quote);
    }
  }

  /** The inner loop of `_unquote_characters` for one input character `c` followed by `n`. */
  method OneCharacter(c: char, n: char, chars: string, quote: char, first: seq<Position>, out: nat)
    returns (pair: bool, first': seq<Position>)
    requires |first| == |chars| && quote !in chars
    ensures pair == (c == quote && Special(n, chars, quote) && chars != "")
    ensures |first'| == |first|
    ensures forall j :: 0 <= j < |first| ==>
            first'[j] == if c == chars[j] && first[j] == Nowhere then At(out) else first[j]
  {
    first' := first;
    pair := false;
    for i := 0 to |chars|
      invariant |first'| == |first|
      invariant c == quote ==> (i > 0 ==> n != quote) && forall j :: 0 <= j < i ==> n != chars[j]
      invariant forall j :: 0 <= j < i ==>
                first'[j] == if c == chars[j] && first[j] == Nowhere then At(out) else first[j]
      invariant forall j :: i <= j < |first| ==> first'[j] == first[j]
    {
      if c == quote && (n == chars[i] || n == quote) {
        pair := true;
        return;
      }
      if c == chars[i] && first'[i] == Nowhere {
        first' := first'[i := At(out)];
      }
    }
  }

  ghost predicate FirstsUpTo(done: seq<Mark>, chars: string, first: seq<Position>)
    requires |first| == |chars|
  {
    forall j :: 0 <= j < |chars| ==> FirstUnquoted(done, chars[j], first[j])
  }

  lemma NoFirsts(chars: string, first: seq<Position>)
    requires |first| == |chars| && forall j :: 0 <= j < |first| ==> first[j] == Nowhere
    ensures FirstsUpTo([], chars, first)
  {
  }

  lemma FirstsStep(done: seq<Mark>, m: Mark, chars: string, first: seq<Position>, first': seq<Position>)
    requires |first| == |first'| == |chars| && FirstsUpTo(done, chars, first)
    requires forall j :: 0 <= j < |first| ==>
               first'[j] == if !m.quoted && m.c == chars[j] && first[j] == Nowhere then At(|done|) else first[j]
    ensures FirstsUpTo(done + [m], chars, first')
  {
    forall j | 0 <= j < |chars| ensures FirstUnquoted(done + [m], chars[j], first'[j]) {
      assert FirstUnquoted(done, chars[j], first[j]);
      assert (done + [m])[..|done|] == done;
      if first[j].At? { assert (done + [m])[..first[j].index] == done[..first[j].index]; }
    }
  }

  /** The next character of the result, whether one or two characters of the input make it. */
  lemma NextMark(all: seq<Mark>, q: nat, s: string, p: nat, chars: string, quote: char)
    requires p < |s| && q <= |all| && all[q..] == Marks(s[p..], chars, quote)
    ensures q < |all|
    ensures if s[p] == quote && p + 1 < |s| && Special(s[p+1], chars, quote)
            then all[q] == Mark(s[p+1], true) && all[q+1..] == Marks(s[p+2..], chars, quote)
            else all[q] == Mark(s[p], false) && all[q+1..] == Marks(s[p+1..], chars, quote)
  {
    MarksStep(s, p, chars, quote);
    hide Marks;
    if s[p] == quote && p + 1 < |s| && Special(s[p+1], chars, quote) {
      Uncons(all, q, Mark(s[p+1], true), Marks(s[p+2..], chars, quote));
    } else {
      Uncons(all, q, Mark(s[p], false), Marks(s[p+1..], chars, quote));
    }
  }

  lemma FirstsStepAt(all: seq<Mark>, q: nat, chars: string, first: seq<Position>, first': seq<Position>)
    requires q < |all| && |first| == |first'| == |chars| && FirstsUpTo(all[..q], chars, first)
    requires forall j :: 0 <= j < |first| ==>
               first'[j] == if !all[q].quoted && all[q].c == chars[j] && first[j] == Nowhere then At(q) else first[j]
    ensures FirstsUpTo(all[..q+1], chars, first')
  {
    FirstsStep(all[..q], all[q], chars, first, first');
    assert all[..q+1] == all[..q] + [all[q]];
  }

  /** `_unquote_characters` */
  method UnquoteCharacters(buf: array<char>, at: nat, ghost s: string, chars: string,
                           quote: char) returns (first: seq<Position>)
    requires HoldsAt(buf[..], at, s) && quote != NUL && quote !in chars && NUL !in chars && chars != ""
    modifies buf
    ensures HoldsAt(buf[..], at, Text(Marks(s, chars, quote)))
    ensures |first| == |chars| && FirstsUpTo(Marks(s, chars, quote), chars, first)
    ensures forall j :: 0 <= j < buf.Length && !(at <= j <= at + |s|) ==> buf[j] == old(buf[j])
  {
    hide Marks, FirstsUpTo, Text, FirstUnquoted, HoldsAt;
    Unholds(buf, at, s);
    first := seq(|chars|, _ => Nowhere);
    var src, out := at, at;
    ghost var all := Marks(s, chars, quote);
    NoFirsts(chars, first);
    assert s[0..] == s && all[0..] == all && all[..0] == [];
    ghost var p, q := 0, 0;
    while buf[src] != NUL
      invariant src == at + p && out == at + q && q <= p <= |s| && q <= |all|
      invariant Intact(buf, at, s, p)
      invariant all[q..] == Marks(s[p..], chars, quote)
      invariant forall j :: at <= j < out ==> buf[j] == all[j - at].c
      invariant |first| == |chars| && FirstsUpTo(all[..q], chars, first)
      invariant forall j :: 0 <= j < buf.Length && !(at <= j <= at + |s|) ==> buf[j] == old(buf[j])
      decreases |s| - p
    {
      var c := buf[src];
      NextMark(all, q, s, p, chars, quote);
      ghost var before := first;
      src := src + 1;
      var pair;
      pair, first := OneCharacter(c, buf[src], chars, quote, first, out - at);
      if pair {
        c := buf[src];
        src := src + 1;
        p := p + 2;
      } else {
        p := p + 1;
      }
      FirstsStepAt(all, q, chars, before, first);
      buf[out] := c;
      out := out + 1;
      q := q + 1;
    }
    assert s[p..] == "";
    MarksNulFree("", chars, quote);
    assert all[..q] == all;
    buf[out] := NUL;
    MarksNulFree(s, chars, quote);
    Holds(buf, at, Text(all));
  }

  /** `dm_unescape_colons_and_at_signs` */
  method UnescapeColonsAndAtSigns(buf: array<char>, ghost s: string) returns (colon: Position, atSign: Position)
    requires HoldsAt(buf[..], 0, s)
    modifies buf
    ensures var ms := Marks(s, ":@", '\\');
            && HoldsAt(buf[..], 0, Text(ms))
            && FirstUnquoted(ms, ':', colon)
            && FirstUnquoted(ms, '@', atSign)
  {
    var first := UnquoteCharacters(buf, 0, s, ":@", '\\');
    assert FirstUnquoted(Marks(s, ":@", '\\'), ":@"[0], first[0]);
    assert FirstUnquoted(Marks(s, ":@", '\\'), ":@"[1], first[1]);
    colon, atSign := first[0], first[1];
  }
}
