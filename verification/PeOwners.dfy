/**
Whose extents the list of `create_pv_list` asks for.

Volumes whose device is not known share one device, and then one entry of the list.  An entry
may end up with extents that the volume it names does not have, for exactly those volume groups
in which a tag asks for a volume whose device, by name, stands for a larger one.
*/
module PeOwners {
  import opened Escaping
  import opened Words
  import opened PeRanges
  import Numbers = ConfigText

  ghost predicate OwnRanges(r: seq<Entry>) {
    forall i :: 0 <= i < |r| ==> AllInside(r[i].ranges, r[i].pv.peCount)
  }

  /** Whatever arguments are accepted, an entry's ranges lie on the volume the entry names. */
  ghost predicate AlwaysOwn(vg: Vg, allocatableOnly: bool) {
    forall args: seq<string> :: AllNulFree(args) && ListOf(vg, args, allocatableOnly, []).Some? ==>
      OwnRanges(ListOf(vg, args, allocatableOnly, []).value)
  }

  ghost predicate AllNulFree(args: seq<string>) {
    forall i :: 0 <= i < |args| ==> NulFree(args[i])
  }

  // ----- the condition -----

  /** Some argument names the device; any unknown name stands for the unknown device. */
  ghost predicate Nameable(vg: Vg, dev: Device) {
    dev == 0 || exists n :: n in vg.names && NulFree(n) && vg.names[n] == dev
  }

  predicate Asks(pv: Pv, tag: string, allocatableOnly: bool) {
    tag in pv.tags && !Skipped(pv, allocatableOnly)
  }

  /** The tag is accepted: no two volumes it asks for share a device. */
  ghost predicate Askable(pvs: seq<Pv>, tag: string, allocatableOnly: bool) {
    && ValidTag(tag)
    && forall i, j :: 0 <= i < j < |pvs| && Asks(pvs[i], tag, allocatableOnly) && Asks(pvs[j], tag, allocatableOnly) ==>
         pvs[i].dev != pvs[j].dev
  }

  /** Asked for by name, the device of `b` stands for a larger volume. */
  ghost predicate Outgrown(vg: Vg, b: Pv, allocatableOnly: bool) {
    var first := FindPv(vg.pvs, b.dev);
    && Nameable(vg, b.dev) && first.Some?
    && !Skipped(first.value, allocatableOnly) && first.value.peCount > b.peCount
  }

  ghost predicate MixesUp(vg: Vg, tag: string, i: nat, allocatableOnly: bool)
    requires i < |vg.pvs|
  {
    && Askable(vg.pvs, tag, allocatableOnly)
    && Asks(vg.pvs[i], tag, allocatableOnly)
    && Outgrown(vg, vg.pvs[i], allocatableOnly)
  }

  ghost predicate MayMixUp(vg: Vg, allocatableOnly: bool) {
    exists tag: string, i: nat :: i < |vg.pvs| && MixesUp(vg, tag, i, allocatableOnly)
  }

  // ----- without such a volume every entry keeps to its own extents -----

  ghost predicate KeepsOwn(vg: Vg, e: Entry, allocatableOnly: bool) {
    && e.pv in vg.pvs && e.ranges != [] && AllInside(e.ranges, e.pv.peCount)
    && (FindPv(vg.pvs, e.pv.dev) == Some(e.pv) || !Outgrown(vg, e.pv, allocatableOnly))
  }

  ghost predicate Tidy(vg: Vg, r: seq<Entry>, allocatableOnly: bool) {
    forall i :: 0 <= i < |r| ==> KeepsOwn(vg, r[i], allocatableOnly)
  }

  lemma InsideBoth(a: seq<Range>, b: seq<Range>, size: nat)
    requires AllInside(a, size) && AllInside(b, size)
    ensures AllInside(a + b, size)
  {
  }

  lemma NamedKeepsTidy(vg: Vg, r: seq<Entry>, q: Request, allocatableOnly: bool)
    requires Tidy(vg, r, allocatableOnly) && HaveExtents(vg.pvs, allocatableOnly) && Add(r, q, allocatableOnly).Some?
    requires FindPv(vg.pvs, q.pv.dev) == Some(q.pv) && Nameable(vg, q.pv.dev) && q.colon != Some("")
    ensures Tidy(vg, Add(r, q, allocatableOnly).value, allocatableOnly)
  {
    if !Skipped(q.pv, allocatableOnly) {
      WantedInside(q.colon, q.pv.peCount);
      hide Wanted, Appendable, HaveExtents, Nameable;
      var rs := Wanted(q.colon, q.pv.peCount).value;
      var i := IndexOf(r, q.pv.dev);
      if i < |r| {
        var e := r[i];
        assert KeepsOwn(vg, e, allocatableOnly);
        assert q.pv.peCount <= e.pv.peCount;
        assert AllInside(rs, e.pv.peCount);
        InsideBoth(e.ranges, rs, e.pv.peCount);
      }
    }
  }

  lemma TaggedKeepsTidy(vg: Vg, r: seq<Entry>, c: Pv, allocatableOnly: bool)
    requires Tidy(vg, r, allocatableOnly) && HaveExtents(vg.pvs, allocatableOnly)
    requires Add(r, Request(c, None), allocatableOnly).Some? && c in vg.pvs
    requires !Skipped(c, allocatableOnly) ==> !Outgrown(vg, c, allocatableOnly)
    ensures Tidy(vg, Add(r, Request(c, None), allocatableOnly).value, allocatableOnly)
  {
    if !Skipped(c, allocatableOnly) {
      var whole := Range(0, c.peCount);
      var i := IndexOf(r, c.dev);
      if i < |r| {
        var e := r[i];
        assert KeepsOwn(vg, e, allocatableOnly);
        BelowTheFirst(e, whole);
        hide Appendable, HaveExtents, Outgrown;
        InsideBoth(e.ranges, [whole], e.pv.peCount);
      }
    }
  }

  /** A whole volume that clashes with nothing on the entry lies below what is there. */
  lemma BelowTheFirst(e: Entry, whole: Range)
    requires e.ranges != [] && AllInside(e.ranges, e.pv.peCount) && e.pv.peCount <= UINT32_MAX
    requires whole.start == 0 && 0 < whole.count <= UINT32_MAX && Appendable(e.ranges, [whole])
    ensures AllInside([whole], e.pv.peCount)
  {
    var all := e.ranges + [whole];
    assert all[0] == e.ranges[0] && all[|e.ranges|] == whole;
    assert !Clash(all[|e.ranges|], all[0]);
    assert Inside(e.ranges[0], e.pv.peCount);
  }

  // ----- an accepted tag asks for each device once -----

  ghost predicate ZeroTaken(r: seq<Entry>, dev: Device) {
    exists k :: 0 <= k < |RangesOf(r, dev)| && RangesOf(r, dev)[k].start == 0
  }

  lemma ZeroStaysTaken(r: seq<Entry>, q: Request, dev: Device, allocatableOnly: bool)
    requires Add(r, q, allocatableOnly).Some? && ZeroTaken(r, dev)
    ensures ZeroTaken(Add(r, q, allocatableOnly).value, dev)
  {
    if !Skipped(q.pv, allocatableOnly) {
      hide Wanted, Appendable;
      var rs := Wanted(q.colon, q.pv.peCount).value;
      WithRangesOf(r, q.pv, rs, dev);
      var k :| 0 <= k < |RangesOf(r, dev)| && RangesOf(r, dev)[k].start == 0;
      assert RangesOf(WithRanges(r, q.pv, rs), dev)[k] == RangesOf(r, dev)[k];
    }
  }

  lemma WithRangesOf(r: seq<Entry>, pv: Pv, rs: seq<Range>, dev: Device)
    ensures RangesOf(WithRanges(r, pv, rs), dev) == RangesOf(r, dev) + if pv.dev == dev then rs else []
  {
    var i, j := IndexOf(r, pv.dev), IndexOf(r, dev);
    var w := WithRanges(r, pv, rs);
    assert forall k :: 0 <= k < |r| ==> w[k].pv.dev == r[k].pv.dev;
    SameIndex(r, w, dev);
    assert i == |r| ==> w[|r|] == Entry(pv, rs);
    assert RangesOf(r, dev) + [] == RangesOf(r, dev) && [] + rs == rs;
  }

  lemma {:induction false} SameIndex(r: seq<Entry>, w: seq<Entry>, dev: Device)
    requires |r| <= |w| && forall k :: 0 <= k < |r| ==> w[k].pv.dev == r[k].pv.dev
    ensures IndexOf(r, dev) < |r| ==> IndexOf(w, dev) == IndexOf(r, dev)
    ensures IndexOf(r, dev) == |r| ==> IndexOf(w, dev) >= |r|
  {
  }

  lemma WholeTakesZero(r: seq<Entry>, c: Pv, allocatableOnly: bool)
    requires !Skipped(c, allocatableOnly) && Add(r, Request(c, None), allocatableOnly).Some?
    ensures !ZeroTaken(r, c.dev) && ZeroTaken(Add(r, Request(c, None), allocatableOnly).value, c.dev)
  {
    var before, whole := RangesOf(r, c.dev), Range(0, c.peCount);
    forall k | 0 <= k < |before| ensures before[k].start != 0 {
      var all := before + [whole];
      assert all[|before|] == whole && all[k] == before[k];
      assert !Clash(all[|before|], all[k]);
    }
    WithRangesOf(r, c, [whole], c.dev);
    assert RangesOf(WithRanges(r, c, [whole]), c.dev)[|before|] == whole;
  }

  lemma {:induction false} AcceptedTag(pvs: seq<Pv>, tag: string, r: seq<Entry>, allocatableOnly: bool)
    requires AddAll(r, Tagged(pvs, tag), allocatableOnly).Some?
    ensures forall i :: 0 <= i < |pvs| && Asks(pvs[i], tag, allocatableOnly) ==> !ZeroTaken(r, pvs[i].dev)
    ensures ValidTag(tag) ==> Askable(pvs, tag, allocatableOnly)
  {
    if pvs != [] {
      hide Add, AddAll, Tagged, ZeroTaken, Asks, Askable, ValidTag;
      assert pvs[0..] == pvs;
      TaggedStep(pvs, 0, tag, r, allocatableOnly);
      if tag in pvs[0].tags {
        var r1 := Add(r, Request(pvs[0], None), allocatableOnly).value;
        AcceptedTag(pvs[1..], tag, r1, allocatableOnly);
        AfterFirst(pvs, tag, r, allocatableOnly);
      } else {
        AcceptedTag(pvs[1..], tag, r, allocatableOnly);
        PassedOver(pvs, tag, r, allocatableOnly);
      }
      LaterPairs(pvs, tag, allocatableOnly);
    }
  }

  lemma AfterFirst(pvs: seq<Pv>, tag: string, r: seq<Entry>, allocatableOnly: bool)
    requires pvs != [] && Add(r, Request(pvs[0], None), allocatableOnly).Some?
    requires var r1 := Add(r, Request(pvs[0], None), allocatableOnly).value;
      forall i :: 0 <= i < |pvs[1..]| && Asks(pvs[1..][i], tag, allocatableOnly) ==> !ZeroTaken(r1, pvs[1..][i].dev)
    ensures forall i :: 0 <= i < |pvs| && Asks(pvs[i], tag, allocatableOnly) ==> !ZeroTaken(r, pvs[i].dev)
    ensures forall i :: 0 < i < |pvs| && Asks(pvs[i], tag, allocatableOnly) && Asks(pvs[0], tag, allocatableOnly) ==>
              pvs[i].dev != pvs[0].dev
  {
    hide Add, ZeroTaken;
    var r1 := Add(r, Request(pvs[0], None), allocatableOnly).value;
    if Asks(pvs[0], tag, allocatableOnly) { WholeTakesZero(r, pvs[0], allocatableOnly); }
    forall i | 0 < i < |pvs| && Asks(pvs[i], tag, allocatableOnly)
      ensures !ZeroTaken(r, pvs[i].dev) && !ZeroTaken(r1, pvs[i].dev)
    {
      assert pvs[i] == pvs[1..][i-1];
      if ZeroTaken(r, pvs[i].dev) { ZeroStaysTaken(r, Request(pvs[0], None), pvs[i].dev, allocatableOnly); }
    }
  }

  lemma PassedOver(pvs: seq<Pv>, tag: string, r: seq<Entry>, allocatableOnly: bool)
    requires pvs != [] && tag !in pvs[0].tags
    requires forall i :: 0 <= i < |pvs[1..]| && Asks(pvs[1..][i], tag, allocatableOnly) ==>
             !ZeroTaken(r, pvs[1..][i].dev)
    ensures forall i :: 0 <= i < |pvs| && Asks(pvs[i], tag, allocatableOnly) ==> !ZeroTaken(r, pvs[i].dev)
    ensures !Asks(pvs[0], tag, allocatableOnly)
  {
    hide ZeroTaken;
    assert forall i :: 0 < i < |pvs| ==> pvs[i] == pvs[1..][i-1];
  }

  lemma LaterPairs(pvs: seq<Pv>, tag: string, allocatableOnly: bool)
    requires pvs != [] && (ValidTag(tag) ==> Askable(pvs[1..], tag, allocatableOnly))
    requires forall i :: 0 < i < |pvs| && Asks(pvs[i], tag, allocatableOnly) && Asks(pvs[0], tag, allocatableOnly) ==>
               pvs[i].dev != pvs[0].dev
    ensures ValidTag(tag) ==> Askable(pvs, tag, allocatableOnly)
  {
    forall i, j | ValidTag(tag) && 0 <= i < j < |pvs|
                  && Asks(pvs[i], tag, allocatableOnly) && Asks(pvs[j], tag, allocatableOnly)
      ensures pvs[i].dev != pvs[j].dev
    {
      if i > 0 { assert pvs[i] == pvs[1..][i-1] && pvs[j] == pvs[1..][j-1]; }
    }
  }

  lemma {:induction false} TagKeepsTidy(vg: Vg, pvs: seq<Pv>, tag: string, r: seq<Entry>, allocatableOnly: bool)
    requires Tidy(vg, r, allocatableOnly) && HaveExtents(vg.pvs, allocatableOnly)
    requires AddAll(r, Tagged(pvs, tag), allocatableOnly).Some?
    requires forall i :: 0 <= i < |pvs| ==>
      pvs[i] in vg.pvs && (Asks(pvs[i], tag, allocatableOnly) ==> !Outgrown(vg, pvs[i], allocatableOnly))
    ensures Tidy(vg, AddAll(r, Tagged(pvs, tag), allocatableOnly).value, allocatableOnly)
  {
    if pvs != [] {
      hide Add, AddAll, Tagged, Outgrown, HaveExtents, Tidy;
      assert pvs[0..] == pvs;
      TaggedStep(pvs, 0, tag, r, allocatableOnly);
      var rest := pvs[1..];
      assert forall i :: 0 <= i < |rest| ==> rest[i] == pvs[i+1];
      if tag in pvs[0].tags {
        TaggedKeepsTidy(vg, r, pvs[0], allocatableOnly);
        TagKeepsTidy(vg, rest, tag, Add(r, Request(pvs[0], None), allocatableOnly).value, allocatableOnly);
      } else {
        TagKeepsTidy(vg, rest, tag, r, allocatableOnly);
      }
    } else {
      TaggedNone(tag);
      AddAllNothing(r, allocatableOnly);
    }
  }

  // ----- arguments -----

  lemma ArgumentKeepsTidy(vg: Vg, arg: string, r: seq<Entry>, allocatableOnly: bool)
    requires Tidy(vg, r, allocatableOnly) && HaveExtents(vg.pvs, allocatableOnly) && !MayMixUp(vg, allocatableOnly)
    requires NulFree(arg) && Requests(vg, arg).Some? && AddAll(r, Requests(vg, arg).value, allocatableOnly).Some?
    ensures Tidy(vg, AddAll(r, Requests(vg, arg).value, allocatableOnly).value, allocatableOnly)
  {
    hide AddAll, Add, Tidy, HaveExtents, Outgrown, Tagged, ValidTag, Marks, FirstOf, Nameable;
    var ms := Marks(arg, ":@", '\\');
    var text, colon := Text(ms), FirstOf(ms, ':');
    MarksNulFree(arg, ":@", '\\');
    if FirstOf(ms, '@') == At(0) {
      var tag := text[1..];
      if ValidTag(tag) {
        AcceptedTag(vg.pvs, tag, r, allocatableOnly);
        forall i: nat | i < |vg.pvs| && Asks(vg.pvs[i], tag, allocatableOnly)
          ensures !Outgrown(vg, vg.pvs[i], allocatableOnly)
        {
          assert !MixesUp(vg, tag, i, allocatableOnly);
        }
        TagKeepsTidy(vg, vg.pvs, tag, r, allocatableOnly);
      } else {
        AddAllNothing(r, allocatableOnly);
      }
    } else {
      var name := if colon.At? then text[..colon.index] else text;
      var q := Requests(vg, arg).value[0];
      assert Requests(vg, arg).value == [q];
      AddAllOne(r, q, allocatableOnly);
      NamedIsNameable(vg, name);
      NamedKeepsTidy(vg, r, q, allocatableOnly);
    }
  }

  lemma NamedIsNameable(vg: Vg, name: string)
    requires NulFree(name)
    ensures Nameable(vg, DeviceOf(vg, name))
  {
  }

  lemma {:induction false} ListKeepsTidy(vg: Vg, args: seq<string>, r: seq<Entry>, allocatableOnly: bool)
    requires Tidy(vg, r, allocatableOnly) && HaveExtents(vg.pvs, allocatableOnly) && !MayMixUp(vg, allocatableOnly)
    requires AllNulFree(args) && ListOf(vg, args, allocatableOnly, r).Some?
    ensures Tidy(vg, ListOf(vg, args, allocatableOnly, r).value, allocatableOnly)
    decreases |args|
  {
    if args != [] {
      hide Tidy, HaveExtents, MayMixUp, Requests, AddAll;
      ArgumentKeepsTidy(vg, args[0], r, allocatableOnly);
      assert AllNulFree(args[1..]);
      ListKeepsTidy(vg, args[1..], AddAll(r, Requests(vg, args[0]).value, allocatableOnly).value, allocatableOnly);
    }
  }

  lemma NoMixUpKeepsOwn(vg: Vg, allocatableOnly: bool)
    requires HaveExtents(vg.pvs, allocatableOnly) && !MayMixUp(vg, allocatableOnly)
    ensures AlwaysOwn(vg, allocatableOnly)
  {
    hide MayMixUp, ListOf, HaveExtents;
    forall args: seq<string> | AllNulFree(args) && ListOf(vg, args, allocatableOnly, []).Some?
      ensures OwnRanges(ListOf(vg, args, allocatableOnly, []).value)
    {
      ListKeepsTidy(vg, args, [], allocatableOnly);
      var r := ListOf(vg, args, allocatableOnly, []).value;
      forall i | 0 <= i < |r| ensures AllInside(r[i].ranges, r[i].pv.peCount) {
        assert KeepsOwn(vg, r[i], allocatableOnly);
      }
    }
  }

  // ----- with such a volume two arguments are enough -----

  ghost predicate NoBackslash(s: string) {
    forall i :: 0 <= i < |s| ==> s[i] != '\\'
  }

  function PlainMarks(s: string): (ms: seq<Mark>)
    ensures |ms| == |s| && forall i :: 0 <= i < |s| ==> ms[i] == Mark(s[i], false)
  {
    seq(|s|, i requires 0 <= i < |s| => Mark(s[i], false))
  }

  lemma {:induction false} MarksOfPlain(s: string)
    requires NoBackslash(s)
    ensures Marks(s, ":@", '\\') == PlainMarks(s)
  {
    if s != "" { MarksOfPlain(s[1..]); }
  }

  /** A name as an argument: what would be read as a separator is escaped. */
  function EscapedName(name: string): string {
    if name == "" then ""
    else (if Special(name[0], ":@", '\\') then ['\\', name[0]] else [name[0]]) + EscapedName(name[1..])
  }

  function NameMarks(name: string): (ms: seq<Mark>)
    ensures |ms| == |name|
    ensures forall i :: 0 <= i < |name| ==> ms[i] == Mark(name[i], Special(name[i], ":@", '\\'))
  {
    seq(|name|, i requires 0 <= i < |name| => Mark(name[i], Special(name[i], ":@", '\\')))
  }

  lemma {:induction false} MarksOfName(name: string, t: string)
    ensures Marks(EscapedName(name) + t, ":@", '\\') == NameMarks(name) + Marks(t, ":@", '\\')
  {
    hide Marks, Special;
    var after := Marks(t, ":@", '\\');
    if name == "" {
      assert EscapedName(name) + t == t && NameMarks(name) + after == after;
    } else {
      MarksOfName(name[1..], t);
      MarksOfFirst(name[0], EscapedName(name[1..]) + t);
      var head := if Special(name[0], ":@", '\\') then ['\\', name[0]] else [name[0]];
      Associative(head, EscapedName(name[1..]), t);
      NameMarksFirst(name);
      hide NameMarks;
      Associative([Mark(name[0], Special(name[0], ":@", '\\'))], NameMarks(name[1..]), after);
    }
  }

  lemma NameMarksFirst(name: string)
    requires name != ""
    ensures NameMarks(name) == [Mark(name[0], Special(name[0], ":@", '\\'))] + NameMarks(name[1..])
  {
    hide Special;
  }

  lemma MarksOfFirst(c: char, t: string)
    ensures Marks((if Special(c, ":@", '\\') then ['\\', c] else [c]) + t, ":@", '\\')
         == [Mark(c, Special(c, ":@", '\\'))] + Marks(t, ":@", '\\')
  {
    assert (['\\', c] + t)[2..] == t && ([c] + t)[1..] == t;
  }

  lemma {:induction false} EscapedNulFree(name: string)
    requires NulFree(name)
    ensures NulFree(EscapedName(name))
  {
    if name != "" { EscapedNulFree(name[1..]); }
  }

  lemma {:induction false} FirstColon(name: string, ms: seq<Mark>)
    requires ms != [] && ms[0] == Mark(':', false)
    ensures FirstOf(NameMarks(name) + ms, ':') == At(|name|) && FirstOf(NameMarks(name) + ms, '@') != At(0)
  {
    var all := NameMarks(name) + ms;
    if name == "" {
      assert all == ms;
    } else {
      FirstColon(name[1..], ms);
      assert all[1..] == NameMarks(name[1..]) + ms;
    }
  }

  /** Any volume that can be named can be asked for any ranges of it. */
  lemma NamedRequest(vg: Vg, name: string, text: string)
    requires text != "" && text[0] == ':' && NoBackslash(text)
    ensures Requests(vg, EscapedName(name) + text) ==
      match FindPv(vg.pvs, DeviceOf(vg, name)) case None => None case Some(pv) => Some([Request(pv, Some(text))])
  {
    hide Marks, FirstOf, EscapedName, Asked, FindPv;
    MarksOfName(name, text);
    MarksOfPlain(text);
    var ms := NameMarks(name) + PlainMarks(text);
    FirstColon(name, PlainMarks(text));
    TextOfName(name, text);
    AskedByName(vg, name, text, FirstOf(ms, '@'));
  }

  /** Without ranges the argument asks for the whole volume; an unknown volume is refused. */
  lemma NamedWhole(vg: Vg, name: string)
    ensures Requests(vg, EscapedName(name)) ==
      match FindPv(vg.pvs, DeviceOf(vg, name)) case None => None case Some(pv) => Some([Request(pv, None)])
  {
    hide Marks, FirstOf, EscapedName, FindPv;
    MarksOfName(name, "");
    assert EscapedName(name) + "" == EscapedName(name);
    assert Marks("", ":@", '\\') == [] by { MarksOfPlain(""); }
    assert NameMarks(name) + [] == NameMarks(name);
    NoSeparator(name);
    TextOfName(name, "");
    assert PlainMarks("") == [] && name + "" == name;
  }

  lemma {:induction false} NoSeparator(name: string)
    ensures FirstOf(NameMarks(name), ':') == Nowhere && FirstOf(NameMarks(name), '@') == Nowhere
  {
    if name != "" {
      NoSeparator(name[1..]);
      NameMarksFirst(name);
      var m := Mark(name[0], Special(name[0], ":@", '\\'));
      assert ([m] + NameMarks(name[1..]))[1..] == NameMarks(name[1..]);
    }
  }

  /** An argument with an invalid tag is skipped. */
  lemma InvalidTagSkipped(vg: Vg, tag: string)
    requires !ValidTag(tag) && NoBackslash(tag)
    ensures Requests(vg, "@" + tag) == Some([])
  {
    TagAsked(vg, tag);
  }

  /** What a tag may be made of: letters, digits and ten other characters. */
  lemma TagCharIs(c: char)
    ensures TagChar(c) <==>
      || '0' <= c <= '9' || 'A' <= c <= 'Z' || 'a' <= c <= 'z' || c == '.' || c == '_' || c == '-' || c == '+'
      || c == '/' || c == '=' || c == '!' || c == ':' || c == '&' || c == '#'
  {
    assert forall d :: d in "._-+/=!:&#" <==>
      d == '.' || d == '_' || d == '-' || d == '+' || d == '/' || d == '='
      || d == '!' || d == ':' || d == '&' || d == '#';
  }

  lemma TagAsked(vg: Vg, tag: string)
    requires NoBackslash(tag)
    ensures Requests(vg, "@" + tag) == Some(if ValidTag(tag) then Tagged(vg.pvs, tag) else [])
  {
    hide ValidTag, Tagged, Marks;
    var s := "@" + tag;
    assert NoBackslash(s);
    MarksOfPlain(s);
    assert Text(PlainMarks(s)) == s;
    assert s[1..] == tag;
  }

  lemma TextOfName(name: string, text: string)
    ensures Text(NameMarks(name) + PlainMarks(text)) == name + text
  {
  }

  lemma AskedByName(vg: Vg, name: string, text: string, atSign: Position)
    requires text != "" && atSign != At(0) && (atSign.At? ==> atSign.index < |name + text|)
    ensures Asked(vg, name + text, At(|name|), atSign) ==
      match FindPv(vg.pvs, DeviceOf(vg, name)) case None => None case Some(pv) => Some([Request(pv, Some(text))])
  {
    assert (name + text)[..|name|] == name && (name + text)[|name|..] == text;
  }

  lemma TagRequest(vg: Vg, tag: string)
    requires ValidTag(tag)
    ensures Requests(vg, "@" + tag) == Some(Tagged(vg.pvs, tag)) && NulFree("@" + tag)
  {
    assert NoBackslash(tag) && NulFree("@" + tag);
    hide Requests, Tagged;
    TagAsked(vg, tag);
  }

  lemma {:induction false} RangesTextIsPlain(rs: seq<Range>)
    ensures NoBackslash(RangesText(rs)) && NulFree(RangesText(rs))
    ensures rs != [] ==> RangesText(rs) != "" && RangesText(rs)[0] == ':'
  {
    if rs != [] {
      hide Numbers.Decimal;
      RangesTextIsPlain(rs[1..]);
    }
  }

  /** Some string is the name of no device. */
  lemma {:induction false} Longer(keys: set<string>) returns (n: nat)
    ensures forall k :: k in keys ==> |k| < n
  {
    if keys == {} {
      n := 0;
    } else {
      var k :| k in keys;
      n := Longer(keys - {k});
      if n <= |k| { n := |k| + 1; }
    }
  }

  lemma NameOf(vg: Vg, dev: Device) returns (name: string)
    requires Nameable(vg, dev)
    ensures NulFree(name) && DeviceOf(vg, name) == dev
  {
    if dev == 0 {
      var n := Longer(vg.names.Keys);
      name := seq(n, _ => 'a');
    } else {
      name :| name in vg.names && NulFree(name) && vg.names[name] == dev;
    }
  }

  function Wholes(pvs: seq<Pv>, tag: string, allocatableOnly: bool): seq<Entry> {
    if pvs == [] then []
    else
      var rest := Wholes(pvs[1..], tag, allocatableOnly);
      if Asks(pvs[0], tag, allocatableOnly) then [Entry(pvs[0], [Range(0, pvs[0].peCount)])] + rest else rest
  }

  ghost predicate Unlisted(r: seq<Entry>, dev: Device) {
    forall i :: 0 <= i < |r| ==> r[i].pv.dev != dev
  }

  lemma AddWhole(r: seq<Entry>, c: Pv, allocatableOnly: bool)
    requires Unlisted(r, c.dev) && !Skipped(c, allocatableOnly)
    ensures Add(r, Request(c, None), allocatableOnly) == Some(r + [Entry(c, [Range(0, c.peCount)])])
  {
    assert IndexOf(r, c.dev) == |r|;
    assert Appendable([], [Range(0, c.peCount)]);
  }

  /** A tag whose volumes are on different devices is accepted. */
  lemma {:induction false} AddWholes(pvs: seq<Pv>, tag: string, r: seq<Entry>, allocatableOnly: bool)
    requires Askable(pvs, tag, allocatableOnly) && EachDeviceOnce(r)
    requires forall i :: 0 <= i < |pvs| && Asks(pvs[i], tag, allocatableOnly) ==> Unlisted(r, pvs[i].dev)
    ensures AddAll(r, Tagged(pvs, tag), allocatableOnly) == Some(r + Wholes(pvs, tag, allocatableOnly))
    ensures EachDeviceOnce(r + Wholes(pvs, tag, allocatableOnly))
  {
    hide Add, AddAll, Tagged;
    if pvs == [] {
      TaggedNone(tag);
      AddAllNothing(r, allocatableOnly);
      assert r + [] == r;
    } else {
      assert pvs[0..] == pvs;
      TaggedStep(pvs, 0, tag, r, allocatableOnly);
      var rest := pvs[1..];
      assert forall i :: 0 <= i < |rest| ==> rest[i] == pvs[i+1];
      assert Askable(rest, tag, allocatableOnly);
      if Asks(pvs[0], tag, allocatableOnly) {
        AddWhole(r, pvs[0], allocatableOnly);
        var e := Entry(pvs[0], [Range(0, pvs[0].peCount)]);
        forall i | 0 <= i < |rest| && Asks(rest[i], tag, allocatableOnly) ensures Unlisted(r + [e], rest[i].dev) {
          assert Asks(pvs[i+1], tag, allocatableOnly) && pvs[i+1].dev != pvs[0].dev;
        }
        AddWholes(rest, tag, r + [e], allocatableOnly);
        assert r + [e] + Wholes(rest, tag, allocatableOnly) == r + Wholes(pvs, tag, allocatableOnly);
      } else {
        if tag in pvs[0].tags { SkippedAdds(r, pvs[0], allocatableOnly); }
        AddWholes(rest, tag, r, allocatableOnly);
      }
    }
  }

  lemma SkippedAdds(r: seq<Entry>, c: Pv, allocatableOnly: bool)
    requires Skipped(c, allocatableOnly)
    ensures Add(r, Request(c, None), allocatableOnly) == Some(r)
  {
  }

  lemma {:induction false} WholesHas(pvs: seq<Pv>, tag: string, i: nat, allocatableOnly: bool)
    requires i < |pvs| && Asks(pvs[i], tag, allocatableOnly)
    ensures Entry(pvs[i], [Range(0, pvs[i].peCount)]) in Wholes(pvs, tag, allocatableOnly)
  {
    if i > 0 {
      WholesHas(pvs[1..], tag, i - 1, allocatableOnly);
    }
  }

  /** The extents of the larger volume join the entry of the smaller one. */
  lemma LargerJoins(r: seq<Entry>, b: Pv, f: Pv, text: string, allocatableOnly: bool)
    requires EachDeviceOnce(r) && Entry(b, [Range(0, b.peCount)]) in r && f.dev == b.dev
    requires !Skipped(f, allocatableOnly) && 0 < b.peCount < f.peCount
    requires Wanted(Some(text), f.peCount) == Some([Range(b.peCount, f.peCount - b.peCount)])
    ensures var r1 := Add(r, Request(f, Some(text)), allocatableOnly); r1.Some? && !OwnRanges(r1.value)
  {
    hide Wanted;
    var j :| 0 <= j < |r| && r[j] == Entry(b, [Range(0, b.peCount)]);
    var i := IndexOf(r, b.dev);
    assert i == j;
    var low, high := Range(0, b.peCount), Range(b.peCount, f.peCount - b.peCount);
    assert [low] + [high] == [low, high];
    assert Appendable([low], [high]);
    var e := Entry(b, [low, high]);
    assert WithRanges(r, f, [high])[i] == e;
    assert !Inside(e.ranges[1], e.pv.peCount);
  }

  /** What the tag alone gives. */
  lemma TagAnswer(vg: Vg, tag: string, i: nat, allocatableOnly: bool) returns (r: seq<Entry>)
    requires i < |vg.pvs| && Askable(vg.pvs, tag, allocatableOnly) && Asks(vg.pvs[i], tag, allocatableOnly)
    ensures NulFree("@" + tag) && Requests(vg, "@" + tag).Some?
    ensures AddAll([], Requests(vg, "@" + tag).value, allocatableOnly) == Some(r)
    ensures EachDeviceOnce(r) && Entry(vg.pvs[i], [Range(0, vg.pvs[i].peCount)]) in r
  {
    hide Requests, AddAll, Wholes, Tagged, Asks;
    AddWholes(vg.pvs, tag, [], allocatableOnly);
    WholesHas(vg.pvs, tag, i, allocatableOnly);
    TagRequest(vg, tag);
    r := Wholes(vg.pvs, tag, allocatableOnly);
    assert [] + r == r;
  }

  /** How the extents of a volume from one on are asked for by name. */
  lemma NameAnswer(vg: Vg, dev: Device, from: nat) returns (arg: string, text: string)
    requires Nameable(vg, dev) && FindPv(vg.pvs, dev).Some?
    requires 0 < from < FindPv(vg.pvs, dev).value.peCount <= UINT32_MAX
    ensures var f := FindPv(vg.pvs, dev).value;
      && NulFree(arg) && Requests(vg, arg) == Some([Request(f, Some(text))])
      && Wanted(Some(text), f.peCount) == Some([Range(from, f.peCount - from)])
  {
    hide Requests, RangesText, Wanted, EscapedName;
    var f := FindPv(vg.pvs, dev).value;
    var name := NameOf(vg, dev);
    var high := Range(from, f.peCount - from);
    text := RangesText([high]);
    arg := EscapedName(name) + text;
    RangesTextIsPlain([high]);
    WantedHigh(from, f.peCount);
    NamedRequest(vg, name, text);
    EscapedNulFree(name);
  }

  lemma LargerListed(vg: Vg, first: string, arg: string, text: string, r: seq<Entry>, b: Pv, f: Pv,
                     allocatableOnly: bool)
    requires Requests(vg, first).Some? && AddAll([], Requests(vg, first).value, allocatableOnly) == Some(r)
    requires EachDeviceOnce(r) && Entry(b, [Range(0, b.peCount)]) in r && f.dev == b.dev
    requires !Skipped(f, allocatableOnly) && 0 < b.peCount < f.peCount
    requires Requests(vg, arg) == Some([Request(f, Some(text))])
    requires Wanted(Some(text), f.peCount) == Some([Range(b.peCount, f.peCount - b.peCount)])
    ensures var l := ListOf(vg, [first, arg], allocatableOnly, []); l.Some? && !OwnRanges(l.value)
  {
    hide Requests, AddAll, Add, Wanted, OwnRanges, ListOf, EachDeviceOnce;
    LargerJoins(r, b, f, text, allocatableOnly);
    TwoArguments(vg, first, arg, r, Request(f, Some(text)), allocatableOnly);
  }

  /** The volume that the device stands for by name. */
  lemma LargerFirst(vg: Vg, tag: string, i: nat, allocatableOnly: bool) returns (f: Pv)
    requires HaveExtents(vg.pvs, allocatableOnly) && i < |vg.pvs| && MixesUp(vg, tag, i, allocatableOnly)
    ensures Askable(vg.pvs, tag, allocatableOnly) && Asks(vg.pvs[i], tag, allocatableOnly)
    ensures Nameable(vg, vg.pvs[i].dev) && FindPv(vg.pvs, vg.pvs[i].dev) == Some(f)
    ensures f.dev == vg.pvs[i].dev && !Skipped(f, allocatableOnly) && 0 < vg.pvs[i].peCount < f.peCount <= UINT32_MAX
  {
    hide Askable, Nameable;
    f := FindPv(vg.pvs, vg.pvs[i].dev).value;
  }

  /** `@tag` and then the device by name, with the extents that only the larger volume has. */
  lemma MixUpHappens(vg: Vg, tag: string, i: nat, allocatableOnly: bool) returns (arg: string)
    requires HaveExtents(vg.pvs, allocatableOnly) && i < |vg.pvs| && MixesUp(vg, tag, i, allocatableOnly)
    ensures NulFree("@" + tag) && NulFree(arg)
    ensures var l := ListOf(vg, ["@" + tag, arg], allocatableOnly, []); l.Some? && !OwnRanges(l.value)
  {
    hide Requests, AddAll, Wanted, HaveExtents, OwnRanges, ListOf, EachDeviceOnce, NulFree, MixesUp, Askable, Asks,
      Nameable, FindPv, Skipped;
    var f := LargerFirst(vg, tag, i, allocatableOnly);
    var b := vg.pvs[i];
    var r := TagAnswer(vg, tag, i, allocatableOnly);
    var text;
    arg, text := NameAnswer(vg, b.dev, b.peCount);
    LargerListed(vg, "@" + tag, arg, text, r, b, f, allocatableOnly);
  }

  lemma WantedHigh(from: nat, size: nat)
    requires 0 < from < size <= UINT32_MAX
    ensures Wanted(Some(RangesText([Range(from, size - from)])), size) == Some([Range(from, size - from)])
  {
    hide Ranges, RangesText;
    RangesRoundTrip([Range(from, size - from)], size);
  }

  lemma TwoArguments(vg: Vg, first: string, second: string, r: seq<Entry>, q: Request, allocatableOnly: bool)
    requires Requests(vg, first).Some? && AddAll([], Requests(vg, first).value, allocatableOnly) == Some(r)
    requires Requests(vg, second) == Some([q]) && Add(r, q, allocatableOnly).Some?
    ensures ListOf(vg, [first, second], allocatableOnly, []) == Add(r, q, allocatableOnly)
  {
    hide Requests, AddAll, Add;
    AddAllOne(r, q, allocatableOnly);
    var next := Add(r, q, allocatableOnly).value;
    assert [first, second][1..] == [second] && [second][1..] == [];
    assert ListOf(vg, [], allocatableOnly, next) == Some(next);
    assert ListOf(vg, [second], allocatableOnly, r) == Some(next);
  }

  /** Every entry keeps to its own volume's extents exactly when no volume group member can be mixed up. */
  lemma AlwaysOwnIff(vg: Vg, allocatableOnly: bool)
    requires HaveExtents(vg.pvs, allocatableOnly)
    ensures AlwaysOwn(vg, allocatableOnly) <==> !MayMixUp(vg, allocatableOnly)
  {
    hide ListOf, OwnRanges, HaveExtents, MixesUp;
    if MayMixUp(vg, allocatableOnly) {
      var tag: string, i: nat :| i < |vg.pvs| && MixesUp(vg, tag, i, allocatableOnly);
      var arg := MixUpHappens(vg, tag, i, allocatableOnly);
      var args := ["@" + tag, arg];
      assert AllNulFree(args) && ListOf(vg, args, allocatableOnly, []).Some?;
    } else {
      NoMixUpKeepsOwn(vg, allocatableOnly);
    }
  }
}
