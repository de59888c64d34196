/**
Device names of logical volumes: `<vg>-<lv>-<layer>` with the hyphens inside each part
doubled (`dm_build_dm_name`, `dm_split_lvm_name`).
*/
module LvmName {
  import opened Escaping

  function Hyphened(s: string): string {
    Quoted(s, '-', '-', false)
  }

  /** A layer whose name starts with an underscore is joined without a hyphen. */
  function LayerPart(layer: string): string {
    if layer == "" then ""
    else if layer[0] != '_' then "-" + Hyphened(layer)
    else Hyphened(layer)
  }

  function DmName(vg: string, lv: string, layer: string): string {
    Hyphened(vg) + "-" + Hyphened(lv) + LayerPart(layer)
  }

  /** A component without its hyphen quoting, and where the next one starts. */
  datatype Component = Component(part: string, next: nat)

  /** `_unquote` on values. */
  function FirstComponent(s: string): (r: Component)
    ensures r.next <= |s| && |r.part| <= r.next
  {
    if s == "" then Component("", 0)
    else if s[0] == '-' && |s| > 1 then
      if s[1] == '-' then var r := FirstComponent(s[2..]); Component("-" + r.part, r.next + 2)
      else Component("", 1)
    else var r := FirstComponent(s[1..]); Component([s[0]] + r.part, r.next + 1)
  }

  datatype Names = Names(vg: string, lv: string, layer: string)

  function SplitName(s: string): Names {
    var c1 := FirstComponent(s);
    var s2 := s[c1.next..];
    var c2 := FirstComponent(s2);
    Names(c1.part, c2.part, FirstComponent(s2[c2.next..]).part)
  }

  lemma ComponentOfPair(w: string)
    ensures FirstComponent("--" + w) == Component("-" + FirstComponent(w).part, FirstComponent(w).next + 2)
  {
    assert ("--" + w)[2..] == w;
  }

  lemma ComponentOfChar(c: char, w: string)
    requires c != '-'
    ensures FirstComponent([c] + w) == Component([c] + FirstComponent(w).part, FirstComponent(w).next + 1)
  {
    assert ([c] + w)[1..] == w;
  }

  /** What follows a quoted part never changes how the part itself is read. */
  lemma {:induction false} ComponentOfQuoted(s: string, u: string)
    ensures FirstComponent(Hyphened(s) + u).part == s + FirstComponent(u).part
    ensures FirstComponent(Hyphened(s) + u).next == |Hyphened(s)| + FirstComponent(u).next
  {
    hide FirstComponent;
    if s == "" {
      assert Hyphened(s) + u == u;
    } else {
      ComponentOfQuoted(s[1..], u);
      var w := Hyphened(s[1..]) + u;
      if s[0] == '-' {
        assert Hyphened(s) + u == "--" + w;
        ComponentOfPair(w);
      } else {
        assert Hyphened(s) + u == [s[0]] + w;
        ComponentOfChar(s[0], w);
      }
      assert s + FirstComponent(u).part == [s[0]] + (s[1..] + FirstComponent(u).part);
    }
  }

  lemma ComponentOfAll(s: string)
    ensures FirstComponent(Hyphened(s)) == Component(s, |Hyphened(s)|)
  {
    ComponentOfQuoted(s, "");
    assert Hyphened(s) + "" == Hyphened(s);
  }

  /** A part followed by a hyphen is read back exactly when another part, not starting with a hyphen, follows. */
  lemma ComponentBeforeHyphen(s: string, v: string)
    ensures v != "" && v[0] != '-' ==> FirstComponent(Hyphened(s) + "-" + v) == Component(s, |Hyphened(s)| + 1)
    ensures !(v != "" && v[0] != '-') ==> FirstComponent(Hyphened(s) + "-" + v).part != s
  {
    assert Hyphened(s) + "-" + v == Hyphened(s) + ("-" + v);
    ComponentOfQuoted(s, "-" + v);
    if v == "" {
      assert FirstComponent("-" + v) == Component("-", 1);
      assert |s + "-"| == |s| + 1;
    } else if v[0] == '-' {
      var r := FirstComponent(("-" + v)[2..]);
      assert FirstComponent("-" + v).part == "-" + r.part;
      assert |s + ("-" + r.part)| > |s|;
    }
  }

  lemma HyphenedFirst(s: string)
    requires s != ""
    ensures Hyphened(s) != "" && Hyphened(s)[0] == s[0]
  {
  }

  /** The names that splitting recovers. */
  ghost predicate Recoverable(lv: string, layer: string) {
    lv != "" && lv[0] != '-' && (layer == "" || (layer[0] != '-' && layer[0] != '_'))
  }

  lemma SplitAfterVg(vg: string, v: string)
    requires v != "" && v[0] != '-'
    ensures var s := Hyphened(vg) + "-" + v;
            var c := FirstComponent(v);
            SplitName(s) == Names(vg, c.part, FirstComponent(v[c.next..]).part)
  {
    var s := Hyphened(vg) + "-" + v;
    ComponentBeforeHyphen(vg, v);
    assert s[|Hyphened(vg)| + 1..] == v;
  }

  /** Splitting inverts building for exactly these names, whatever the volume group is called. */
  lemma SplitInvertsBuild(vg: string, lv: string, layer: string)
    ensures SplitName(DmName(vg, lv, layer)) == Names(vg, lv, layer) <==> Recoverable(lv, layer)
  {
    hide FirstComponent, Hyphened, LayerPart;
    var v := Hyphened(lv) + LayerPart(layer);
    assert DmName(vg, lv, layer) == Hyphened(vg) + "-" + v;
    FirstOfRest(lv, layer);
    if v != "" && v[0] != '-' {
      SplitAfterVg(vg, v);
      hide SplitName;
      if lv == "" { UnderscoreAlone(layer); } else { SplitRest(lv, layer); }
    } else {
      ComponentBeforeHyphen(vg, v);
    }
  }

  lemma FirstOfRest(lv: string, layer: string)
    ensures var v := Hyphened(lv) + LayerPart(layer);
      if lv != "" then v != "" && v[0] == lv[0] else v == LayerPart(layer)
  {
    if lv != "" { HyphenedFirst(lv); }
  }

  lemma UnderscoreAlone(layer: string)
    requires LayerPart(layer) != "" && LayerPart(layer)[0] != '-'
    ensures FirstComponent(LayerPart(layer)).part != ""
  {
    ComponentOfAll(layer);
  }

  /** What follows the volume group is split into its two parts exactly when the layer allows it. */
  lemma SplitRest(lv: string, layer: string)
    requires lv != "" && lv[0] != '-'
    ensures var v := Hyphened(lv) + LayerPart(layer);
            var c := FirstComponent(v);
            (c.part == lv && FirstComponent(v[c.next..]).part == layer) <==> Recoverable(lv, layer)
  {
    hide FirstComponent, Hyphened;
    var v := Hyphened(lv) + LayerPart(layer);
    ComponentOfAll(layer);
    if layer == "" {
      ComponentOfAll(lv);
      assert v == Hyphened(lv) && v[|v|..] == "";
      assert FirstComponent("").part == "" by { NothingToRead(); }
    } else {
      HyphenedFirst(layer);
      if layer[0] == '_' {
        ComponentOfQuoted(lv, Hyphened(layer));
        assert |lv + layer| > |lv|;
      } else {
        assert v == Hyphened(lv) + "-" + Hyphened(layer);
        ComponentBeforeHyphen(lv, Hyphened(layer));
        assert v[|Hyphened(lv)| + 1..] == Hyphened(layer);
      }
    }
  }

  lemma NothingToRead()
    ensures FirstComponent("").part == ""
  {
  }

  /** A layer that starts with an underscore comes back as part of the volume name. */
  lemma UnderscoreLayerJoinsLv(vg: string, lv: string, layer: string)
    requires layer != "" && layer[0] == '_' && (lv == "" || lv[0] != '-')
    ensures SplitName(DmName(vg, lv, layer)) == Names(vg, lv + layer, "")
  {
    var v := Hyphened(lv) + Hyphened(layer);
    assert DmName(vg, lv, layer) == Hyphened(vg) + "-" + v;
    QuotedConcat(lv, layer, '-', '-', false);
    assert v == Hyphened(lv + layer);
    HyphenedFirst(lv + layer);
    SplitAfterVg(vg, v);
    ComponentOfAll(lv + layer);
  }

  // ----- in place -----

  /** One turn of the loop of `_unquote`, at position `i` of the name. */
  lemma ComponentStep(s: string, i: nat)
    requires i < |s|
    ensures s[i] == '-' && i + 1 < |s| && s[i+1] == '-' ==>
              FirstComponent(s[i..]) ==
              Component("-" + FirstComponent(s[i+2..]).part, FirstComponent(s[i+2..]).next + 2)
    ensures s[i] == '-' && i + 1 < |s| && s[i+1] != '-' ==> FirstComponent(s[i..]) == Component("", 1)
    ensures !(s[i] == '-' && i + 1 < |s|) ==>
              FirstComponent(s[i..]) ==
              Component([s[i]] + FirstComponent(s[i+1..]).part, FirstComponent(s[i+1..]).next + 1)
  {
    assert s[i..][1..] == s[i+1..];
    if i + 1 < |s| { assert s[i..][2..] == s[i+2..]; }
  }

  /** The loop of `_unquote`: `c` reads, `o` writes behind it. */
  method CopyComponent(buf: array<char>, at: nat, ghost s: string) returns (c: nat, o: nat)
    requires Intact(buf, at, s, 0) && NulFree(s)
    modifies buf
    ensures at <= o <= c <= at + |s| && o == at + |FirstComponent(s).part|
    ensures FirstComponent(s).next == c - at + (if c < at + |s| then 1 else 0)
    ensures Intact(buf, at, s, c - at) && Written(buf, at, FirstComponent(s).part)
    ensures forall j :: 0 <= j < at ==> buf[j] == old(buf[j])
  {
    hide FirstComponent;
    c, o := at, at;
    ghost var all := FirstComponent(s).part;
    ghost var p, q := 0, 0;
    assert s[0..] == s && all[0..] == all;
    while buf[c] != NUL
      invariant c == at + p && o == at + q && q <= p <= |s| && q <= |all|
      invariant Intact(buf, at, s, p)
      invariant all[q..] == FirstComponent(s[p..]).part && FirstComponent(s).next == p + FirstComponent(s[p..]).next
      invariant forall j :: at <= j < o ==> buf[j] == all[j - at]
      invariant forall j :: 0 <= j < at ==> buf[j] == old(buf[j])
      decreases |s| - p
    {
      ComponentStep(s, p);
      if buf[c + 1] != NUL {
        if buf[c] == '-' {
          if buf[c + 1] == '-' {
            c := c + 1;
            p := p + 1;
          } else {
            return;
          }
        }
      }
      Uncons(all, q, s[p], FirstComponent(s[p+1..]).part);
      buf[o] := buf[c];
      o := o + 1;
      c := c + 1;
      p, q := p + 1, q + 1;
    }
    assert s[p..] == "";
    NoComponent();
  }

  /**
  `_unquote`: rewrites the component at `at` in place and returns the position of the
  next one, which is still intact.
  */
  method Unquote(buf: array<char>, at: nat, ghost s: string) returns (r: nat)
    requires HoldsAt(buf[..], at, s)
    modifies buf
    ensures r == at + FirstComponent(s).next
    ensures HoldsAt(buf[..], at, FirstComponent(s).part)
    ensures HoldsAt(buf[..], r, s[FirstComponent(s).next..])
    ensures forall j :: 0 <= j < at ==> buf[j] == old(buf[j])
  {
    hide FirstComponent;
    Unholds(buf, at, s);
    var c, o := CopyComponent(buf, at, s);
    r := if buf[c] != NUL then c + 1 else c;
    buf[o] := NUL;
    PartNulFree(s);
    Holds(buf, at, FirstComponent(s).part);
    Holds(buf, r, s[r - at..]);
  }

  /** Rewriting a later component leaves an earlier one as it is. */
  lemma EarlierStays(before: seq<char>, after: seq<char>, at: nat, part: string, r: nat)
    requires HoldsAt(before, at, part) && at + |part| <= r < |after| == |before|
    requires forall j :: 0 <= j < r ==> after[j] == before[j]
    requires at + |part| == r ==> after[r] == NUL
    ensures HoldsAt(after, at, part)
  {
    assert after[at..at + |part|] == before[at..at + |part|];
  }

  /** Two components share their terminator only at the end of the name. */
  lemma {:induction false} SharedTerminator(s: string)
    ensures |FirstComponent(s).part| == FirstComponent(s).next ==> FirstComponent(s).next == |s|
    decreases |s|
  {
    if s != "" {
      if s[0] == '-' && |s| > 1 {
        if s[1] == '-' { SharedTerminator(s[2..]); }
      } else {
        SharedTerminator(s[1..]);
      }
    }
  }

  /** The two inner calls of `dm_split_lvm_name`. */
  method UnquoteLast(buf: array<char>, at: nat, ghost s: string) returns (r: nat)
    requires HoldsAt(buf[..], at, s)
    modifies buf
    ensures var c := FirstComponent(s);
            HoldsAt(buf[..], at, c.part) && HoldsAt(buf[..], r, FirstComponent(s[c.next..]).part)
    ensures forall j :: 0 <= j < at ==> buf[j] == old(buf[j])
  {
    hide FirstComponent;
    r := Unquote(buf, at, s);
    ghost var mid := buf[..];
    var _ := Unquote(buf, r, s[FirstComponent(s).next..]);
    SharedTerminator(s);
    NoComponent();
    EarlierStays(mid, buf[..], at, FirstComponent(s).part, r);
  }

  /** `dm_split_lvm_name`: three components, one after the other, in one buffer. */
  method SplitLvmName(buf: array<char>, ghost s: string) returns (lv: nat, layer: nat)
    requires HoldsAt(buf[..], 0, s)
    modifies buf
    ensures var n := SplitName(s);
            HoldsAt(buf[..], 0, n.vg) && HoldsAt(buf[..], lv, n.lv) && HoldsAt(buf[..], layer, n.layer)
  {
    hide FirstComponent;
    ghost var c1 := FirstComponent(s);
    lv := Unquote(buf, 0, s);
    ghost var mid := buf[..];
    layer := UnquoteLast(buf, lv, s[c1.next..]);
    SharedTerminator(s);
    NoComponent();
    EarlierStays(mid, buf[..], 0, c1.part, lv);
  }

  lemma NoComponent()
    ensures FirstComponent("") == Component("", 0)
  {
  }

  lemma {:induction false} PartNulFree(s: string)
    requires NulFree(s)
    ensures NulFree(FirstComponent(s).part)
    decreases |s|
  {
    if s != "" {
      if s[0] == '-' && |s| > 1 {
        if s[1] == '-' { PartNulFree(s[2..]); }
      } else {
        PartNulFree(s[1..]);
      }
    }
  }

  /** The bytes `dm_build_dm_name` asks for beyond the name and its terminator. */
  function Spare(layer: string): nat {
    if layer != "" && layer[0] == '_' then 1 else 0
  }

  /** `dm_build_dm_name`: the precomputed length is enough, and exact unless the layer starts with an underscore. */
  method BuildDmName(vg: string, lv: string, layer: string) returns (out: array<char>)
    requires NulFree(vg) && NulFree(lv) && NulFree(layer)
    ensures fresh(out) && out.Length == |DmName(vg, lv, layer)| + 1 + Spare(layer)
    ensures HoldsAt(out[..], 0, DmName(vg, lv, layer))
  {
    var len, hyphens := 1, 1;
    len, hyphens := CountChars(vg, len, hyphens, '-', NUL);
    len, hyphens := CountChars(lv, len, hyphens, '-', NUL);
    if layer != "" {
      len, hyphens := CountChars(layer, len, hyphens, '-', NUL);
      hyphens := hyphens + 1;
    }
    len := len + hyphens;
    HyphenCount(vg);
    HyphenCount(lv);
    HyphenCount(layer);
    out := new char[len];
    FillDmName(out, vg, lv, layer);
  }

  lemma HyphenCount(s: string)
    requires NulFree(s)
    ensures |Hyphened(s)| == |s| + Occurrences(s, '-', NUL)
  {
    QuotedLength(s, '-', '-');
    NulNeverCounts(s);
  }

  lemma {:induction false} NulNeverCounts(s: string)
    requires NulFree(s)
    ensures Occurrences(s, '-', NUL) == Occurrences(s, '-', '-')
  {
    if s != "" { NulNeverCounts(s[1..]); }
  }

  /** `_quote_hyphens` after what was already written. */
  method AppendHyphened(r: array<char>, o: nat, ghost done: string, src: string) returns (o': nat)
    requires o == |done| && Written(r, 0, done) && |done + Hyphened(src)| <= r.Length
    modifies r
    ensures o' == |done + Hyphened(src)| && Written(r, 0, done + Hyphened(src))
  {
    o' := QuoteCharacters(r, o, src, '-', '-', false);
  }

  method AppendHyphen(r: array<char>, o: nat, ghost done: string) returns (o': nat)
    requires o == |done| < r.Length && Written(r, 0, done)
    modifies r
    ensures o' == |done + "-"| && Written(r, 0, done + "-")
  {
    r[o] := '-';
    o' := o + 1;
  }

  method Terminate(r: array<char>, o: nat, ghost done: string)
    requires o == |done| < r.Length && Written(r, 0, done) && NulFree(done)
    modifies r
    ensures HoldsAt(r[..], 0, done)
  {
    r[o] := NUL;
    Holds(r, 0, done);
  }

  lemma NothingWritten(r: array<char>)
    ensures Written(r, 0, "")
  {
  }

  lemma NameNulFree(vg: string, lv: string, layer: string)
    requires NulFree(vg) && NulFree(lv) && NulFree(layer)
    ensures NulFree(DmName(vg, lv, layer))
  {
    QuotedNulFree(vg, '-', '-', false);
    QuotedNulFree(lv, '-', '-', false);
    QuotedNulFree(layer, '-', '-', false);
  }

  method FillDmName(r: array<char>, vg: string, lv: string, layer: string)
    requires NulFree(vg) && NulFree(lv) && NulFree(layer) && |DmName(vg, lv, layer)| < r.Length
    modifies r
    ensures HoldsAt(r[..], 0, DmName(vg, lv, layer))
  {
    hide Quoted, Written, HoldsAt, NulFree;
    ghost var done := "";
    NothingWritten(r);
    var out := AppendHyphened(r, 0, done, vg);
    done := done + Hyphened(vg);
    out := AppendHyphen(r, out, done);
    done := done + "-";
    out := AppendHyphened(r, out, done, lv);
    done := done + Hyphened(lv);
    assert done == Hyphened(vg) + "-" + Hyphened(lv);
    if layer != "" {
      if layer[0] != '_' {
        out := AppendHyphen(r, out, done);
        done := done + "-";
      }
      out := AppendHyphened(r, out, done, layer);
      done := done + Hyphened(layer);
    }
    assert done == DmName(vg, lv, layer);
    NameNulFree(vg, lv, layer);
    Terminate(r, out, done);
  }

  /** Building a name and splitting it in the same buffer gives the three parts back. */
  method BuildThenSplit(vg: string, lv: string, layer: string) returns (buf: array<char>, lvAt: nat, layerAt: nat)
    requires NulFree(vg) && NulFree(lv) && NulFree(layer) && Recoverable(lv, layer)
    ensures HoldsAt(buf[..], 0, vg) && HoldsAt(buf[..], lvAt, lv) && HoldsAt(buf[..], layerAt, layer)
  {
    buf := BuildDmName(vg, lv, layer);
    SplitInvertsBuild(vg, lv, layer);
    lvAt, layerAt := SplitLvmName(buf, DmName(vg, lv, layer));
  }
}
