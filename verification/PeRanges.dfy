/**
Physical extent ranges on the command line (`create_pv_list` and below).

An argument names a physical volume, or a tag shared by several, and may restrict it to
ranges of extents.  The resulting list names each device once, with disjoint ranges.
*/
module PeRanges {
  import opened Escaping
  import opened Words
  import Numbers = ConfigText
  import NumbersBack = ConfigRoundTrip

  // ----- ranges -----

  datatype Range = Range(start: nat, count: nat)

  predicate Holds(r: Range, extent: int) {
    r.start <= extent < r.start + r.count
  }

  /** A non-empty range inside the first `size` extents. */
  predicate Inside(r: Range, size: nat) {
    r.count > 0 && r.start + r.count <= size
  }

  function LastExtent(r: Range): nat {
    Wrap32(r.start + r.count - 1)
  }

  ghost predicate Apart(a: Range, b: Range) {
    forall x :: !(Holds(a, x) && Holds(b, x))
  }

  /** The overlap test of `_add_pe_range`. */
  predicate Clash(r: Range, per: Range) {
    || (r.start < per.start && LastExtent(r) >= per.start)
    || (r.start >= per.start && LastExtent(per) >= r.start)
  }

  /** For ranges inside a volume the test is exact. */
  lemma ClashExact(a: Range, b: Range)
    requires Inside(a, UINT32_MAX) && Inside(b, UINT32_MAX)
    ensures Clash(a, b) <==> !Apart(a, b)
  {
    if Clash(a, b) {
      var x := if a.start < b.start then b.start else a.start;
      assert Holds(a, x) && Holds(b, x);
    }
  }

  /** New ranges that clash neither with old ones nor with one another. */
  predicate Appendable(before: seq<Range>, rs: seq<Range>) {
    forall i, j :: 0 <= i < j < |before + rs| && |before| <= j ==> !Clash((before + rs)[j], (before + rs)[i])
  }

  /** `_add_pe_range` */
  method AddPeRange(ranges: seq<Range>, start: nat, count: nat) returns (ok: bool, r: seq<Range>)
    ensures ok <==> Appendable(ranges, [Range(start, count)])
    ensures r == if ok then ranges + [Range(start, count)] else ranges
  {
    var all := ranges + [Range(start, count)];
    for i := 0 to |ranges|
      invariant forall k :: 0 <= k < i ==> !Clash(all[|ranges|], all[k])
    {
      var per := ranges[i];
      if (start < per.start && Wrap32(start + count - 1) >= per.start)
        || (start >= per.start && Wrap32(per.start + per.count - 1) >= start)
      {
        assert Clash(all[|ranges|], all[i]);
        return false, ranges;
      }
    }
    return true, all;
  }

  // ----- text of ranges -----

  function DigitsLen(s: string): (n: nat)
    ensures n <= |s|
  {
    if s == "" || !Numbers.IsDigit(s[0]) then 0 else 1 + DigitsLen(s[1..])
  }

  predicate StartsWithDigit(s: string) {
    s != "" && Numbers.IsDigit(s[0])
  }

  /** The start of a range: its value, whether it stands alone, and what follows. */
  datatype Bound = Bound(value: nat, rest: string) | TooBig

  /** `xstrtouint32` in base ten. */
  function Number(s: string): (b: Bound)
    requires StartsWithDigit(s)
    ensures b.Bound? ==> b.value <= UINT32_MAX && |b.rest| < |s|
  {
    var v := Numbers.Digits(0, s, 10);
    if v > UINT32_MAX then TooBig else Bound(v, s[DigitsLen(s)..])
  }

  predicate AtEnd(s: string) {
    s == "" || s[0] == ':'
  }

  datatype Item = Item(range: Range, rest: string) | BadItem

  /** What follows the start of a range. */
  function ItemAfter(start: nat, s: string, lone: nat, size: nat): (item: Item)
    ensures item.Item? ==> |item.rest| <= |s|
  {
    if s != "" && s[0] == '-' && StartsWithDigit(s[1..]) then
      var b := Number(s[1..]);
      if b.TooBig? then BadItem else Checked(start, b.value, b.rest, size)
    else Checked(start, lone, if s != "" && s[0] == '-' then s[1..] else s, size)
  }

  function Checked(start: nat, end: nat, s: string, size: nat): Item {
    if !AtEnd(s) || start > end || end > Wrap32(size - 1) then BadItem
    else Item(Range(start, Wrap32(end - start + 1)), s)
  }

  /** One range, after its colon. */
  function ItemAt(s: string, size: nat): (item: Item)
    ensures item.Item? ==> |item.rest| <= |s|
  {
    if StartsWithDigit(s) then
      var b := Number(s);
      if b.TooBig? then BadItem
      else ItemAfter(b.value, b.rest, if AtEnd(b.rest) then b.value else Wrap32(size - 1), size)
    else ItemAfter(0, s, Wrap32(size - 1), size)
  }

  /** All the ranges of an argument. */
  function Ranges(s: string, size: nat): Option<seq<Range>> {
    if s == "" then Some([])
    else if s[0] != ':' || AtEnd(s[1..]) then None
    else
      var item := ItemAt(s[1..], size);
      if item.BadItem? then None
      else
        var more := Ranges(item.rest, size);
        if more.None? then None else Some([item.range] + more.value)
  }

  /** The ranges an argument asks for; without a colon, the whole volume. */
  function Wanted(colon: Option<string>, size: nat): Option<seq<Range>> {
    match colon
    case None => Some([Range(0, size)])
    case Some(s) => Ranges(s, size)
  }

  ghost predicate AllInside(rs: seq<Range>, size: nat) {
    forall i :: 0 <= i < |rs| ==> Inside(rs[i], size)
  }

  lemma {:induction false} RangesInside(s: string, size: nat)
    requires 0 < size <= UINT32_MAX && Ranges(s, size).Some?
    ensures AllInside(Ranges(s, size).value, size) && (s != "" ==> Ranges(s, size).value != [])
    decreases |s|
  {
    hide ItemAt;
    if s != "" {
      ItemInside(s[1..], size);
      RangesInside(ItemAt(s[1..], size).rest, size);
    }
  }

  lemma CheckedInside(start: nat, end: nat, s: string, size: nat)
    requires 0 < size <= UINT32_MAX
    ensures Checked(start, end, s, size).Item? ==> Inside(Checked(start, end, s, size).range, size)
  {
  }

  lemma ItemAfterInside(start: nat, s: string, lone: nat, size: nat)
    requires 0 < size <= UINT32_MAX
    ensures ItemAfter(start, s, lone, size).Item? ==> Inside(ItemAfter(start, s, lone, size).range, size)
  {
    hide Number, Checked, Inside;
    if s != "" && s[0] == '-' && StartsWithDigit(s[1..]) {
      var b := Number(s[1..]);
      if b.Bound? { CheckedInside(start, b.value, b.rest, size); }
    } else {
      CheckedInside(start, lone, if s != "" && s[0] == '-' then s[1..] else s, size);
    }
  }

  lemma ItemInside(s: string, size: nat)
    requires 0 < size <= UINT32_MAX
    ensures ItemAt(s, size).Item? ==> Inside(ItemAt(s, size).range, size)
  {
    hide Number, ItemAfter, Inside, Wrap32, AtEnd;
    var last := Wrap32(size - 1);
    if StartsWithDigit(s) {
      var b := Number(s);
      if b.Bound? { ItemAfterInside(b.value, b.rest, if AtEnd(b.rest) then b.value else last, size); }
    } else {
      ItemAfterInside(0, s, last, size);
    }
  }

  /** On a volume with extents, whatever is asked for is non-empty and on the volume. */
  lemma WantedInside(colon: Option<string>, size: nat)
    requires 0 < size <= UINT32_MAX && Wanted(colon, size).Some? && colon != Some("")
    ensures AllInside(Wanted(colon, size).value, size) && Wanted(colon, size).value != []
  {
    if colon.Some? { RangesInside(colon.value, size); }
  }

  // ----- every list of ranges can be written -----

  function RangesText(rs: seq<Range>): string {
    if rs == [] then ""
    else ":" + (ItemText(rs[0]) + RangesText(rs[1..]))
  }

  lemma {:induction false} DigitsLenOf(d: string, t: string)
    requires NumbersBack.AllDigits(d) && !StartsWithDigit(t)
    ensures DigitsLen(d + t) == |d|
  {
    if d == "" {
      assert d + t == t;
    } else {
      assert (d + t)[1..] == d[1..] + t;
      DigitsLenOf(d[1..], t);
    }
  }

  lemma NumberOfDecimal(n: nat, t: string)
    requires n <= UINT32_MAX && !StartsWithDigit(t)
    ensures StartsWithDigit(Numbers.Decimal(n) + t) && Number(Numbers.Decimal(n) + t) == Bound(n, t)
  {
    hide Numbers.Decimal;
    var d := Numbers.Decimal(n);
    assert (d + t)[0] == d[0];
    DigitsLenOf(d, t);
    NumbersBack.DigitsThenMore(0, d, t);
    NumbersBack.DigitsOfDecimal(n);
    assert (d + t)[|d|..] == t;
  }

  function ItemText(r: Range): string {
    Numbers.Decimal(r.start) + ("-" + Numbers.Decimal(LastExtent(r)))
  }

  lemma ItemOfText(r: Range, size: nat, t: string)
    requires Inside(r, UINT32_MAX) && LastExtent(r) <= Wrap32(size - 1) && AtEnd(t)
    ensures ItemAt(ItemText(r) + t, size) == Item(r, t)
    ensures !AtEnd(ItemText(r) + t)
  {
    hide Numbers.Decimal, Number;
    var last := Numbers.Decimal(LastExtent(r)) + t;
    NumberOfDecimal(LastExtent(r), t);
    var tail := "-" + last;
    assert tail[0] == '-' && tail[1..] == last;
    NumberOfDecimal(r.start, tail);
    assert ItemText(r) + t == Numbers.Decimal(r.start) + tail;
  }

  lemma RangesOfText(s: string, body: string, r: Range, t: string, size: nat)
    requires s == ":" + body && !AtEnd(body) && ItemAt(body, size) == Item(r, t)
    ensures Ranges(s, size) == match Ranges(t, size) case None => None case Some(more) => Some([r] + more)
  {
    hide ItemAt;
    assert s[0] == ':' && s[1..] == body;
  }

  /** Ranges up to the largest extent a volume of `size` extents lets through, written out, are read back. */
  lemma {:induction false} RangesRoundTrip(rs: seq<Range>, size: nat)
    requires size <= UINT32_MAX && AllInside(rs, UINT32_MAX)
    requires forall i :: 0 <= i < |rs| ==> LastExtent(rs[i]) <= Wrap32(size - 1)
    ensures Ranges(RangesText(rs), size) == Some(rs)
  {
    if rs != [] {
      var t := RangesText(rs[1..]);
      RangesRoundTrip(rs[1..], size);
      hide ItemAt, ItemText;
      ItemOfText(rs[0], size, t);
      RangesOfText(RangesText(rs), ItemText(rs[0]) + t, rs[0], t, size);
      assert [rs[0]] + rs[1..] == rs;
    }
  }

  /** On a volume without extents the upper bound wraps around, and all ranges are let through. */
  lemma NoExtentsNoBound(rs: seq<Range>)
    requires AllInside(rs, UINT32_MAX)
    ensures Ranges(RangesText(rs), 0) == Some(rs) && Wanted(None, 0) == Some([Range(0, 0)])
  {
    RangesRoundTrip(rs, 0);
  }

  ghost predicate AlwaysInside(size: nat) {
    forall s: string :: Ranges(s, size).Some? ==> AllInside(Ranges(s, size).value, size)
  }

  /** Everything accepted is non-empty and on the volume exactly when the volume has an extent. */
  lemma InsideIffExtents(size: nat)
    requires size <= UINT32_MAX
    ensures AlwaysInside(size) <==> size > 0
  {
    hide Ranges, RangesText;
    if size > 0 {
      forall s: string | Ranges(s, size).Some? ensures AllInside(Ranges(s, size).value, size) { RangesInside(s, size); }
    } else {
      var rs := [Range(0, 1)];
      NoExtentsNoBound(rs);
      assert !Inside(rs[0], 0);
      assert Ranges(RangesText(rs), size).Some?;
    }
  }

  // ----- reading the ranges of one argument -----

  /** `xstrtouint32`: reads digits from `c` on. */
  method ReadNumber(s: string, c: nat) returns (ok: bool, end: nat, value: nat)
    requires c < |s| && Numbers.IsDigit(s[c])
    ensures c < end <= |s| && end == c + DigitsLen(s[c..])
    ensures (if ok then Bound(value, s[end..]) else TooBig) == Number(s[c..])
  {
    end, value := c, 0;
    while end < |s| && Numbers.IsDigit(s[end])
      invariant c <= end <= |s|
      invariant end + DigitsLen(s[end..]) == c + DigitsLen(s[c..])
      invariant Numbers.Digits(value, s[end..], 10) == Numbers.Digits(0, s[c..], 10)
      invariant end == c ==> value == 0
    {
      assert s[end..][1..] == s[end+1..];
      value := value * 10 + Numbers.DigitValue(s[end]);
      end := end + 1;
    }
    assert s[c..][DigitsLen(s[c..])..] == s[end..];
    ok := value <= UINT32_MAX;
  }

  /** The second half of a round: an end, if one is given, and the checks. */
  method ReadEnd(s: string, c: nat, start: nat, lone: nat, size: nat) returns (ok: bool, range: Range, next: nat)
    requires c <= |s|
    ensures ok ==> c <= next <= |s|
    ensures (if ok then Item(range, s[next..]) else BadItem) == ItemAfter(start, s[c..], lone, size)
  {
    hide Number, DigitsLen;
    range := Range(0, 0);
    next := c;
    var end := lone;
    if next < |s| && s[next] == '-' {
      assert s[next..][1..] == s[next+1..];
      next := next + 1;
      if next < |s| && Numbers.IsDigit(s[next]) {
        ok, next, end := ReadNumber(s, next);
        if !ok {
          return;
        }
      }
    }
    assert ItemAfter(start, s[c..], lone, size) == Checked(start, end, s[next..], size);
    if next < |s| && s[next] != ':' {
      return false, range, next;
    }
    if start > end || end > Wrap32(size - 1) {
      return false, range, next;
    }
    return true, Range(start, Wrap32(end - start + 1)), next;
  }

  /** One round of the loop of `_parse_pes`: the range after the colon before `c`. */
  method ReadItem(s: string, c: nat, size: nat) returns (ok: bool, range: Range, next: nat)
    requires c < |s| && s[c] != ':'
    ensures ok ==> c <= next <= |s|
    ensures (if ok then Item(range, s[next..]) else BadItem) == ItemAt(s[c..], size)
  {
    hide Number, DigitsLen, ItemAfter;
    next := c;
    var start, end := 0, Wrap32(size - 1);
    if Numbers.IsDigit(s[next]) {
      ok, next, start := ReadNumber(s, next);
      if !ok {
        return false, Range(0, 0), next;
      }
      if next == |s| || s[next] == ':' {
        end := start;
      }
    }
    ok, range, next := ReadEnd(s, next, start, end, size);
  }

  /** `_parse_pes` */
  method ParsePes(colon: Option<string>, ranges: seq<Range>, size: nat) returns (ok: bool, r: seq<Range>)
    ensures ok <==> Wanted(colon, size).Some? && Appendable(ranges, Wanted(colon, size).value)
    ensures ok ==> r == ranges + Wanted(colon, size).value
  {
    if colon.None? {
      ok, r := AddPeRange(ranges, 0, size);
      return;
    }
    hide ItemAt, Appendable;
    var s := colon.value;
    var c := 0;
    r := ranges;
    ghost var taken: seq<Range> := [];
    AppendableNone(ranges);
    assert ranges + [] == ranges && s[0..] == s;
    ContinuedNothing(Ranges(s, size));
    while c < |s|
      invariant 0 <= c <= |s| && r == ranges + taken && Appendable(ranges, taken)
      invariant Continued(taken, Ranges(s[c..], size)) == Ranges(s, size)
    {
      ghost var rest := Ranges(s[c..], size);
      assert s[c..][1..] == s[c+1..];
      if s[c] != ':' {
        return false, r;
      }
      c := c + 1;
      if c == |s| || s[c] == ':' {
        return false, r;
      }
      var range;
      ok, range, c := ReadItem(s, c, size);
      if !ok {
        return false, r;
      }
      ghost var more := Ranges(s[c..], size);
      ContinuedStep(taken, range, more);
      assert rest == Continued([range], more);
      ok, r := AddPeRange(r, range.start, range.count);
      AppendableStep(ranges, taken, range, more);
      if !ok {
        return false, r;
      }
      taken := taken + [range];
      assert r == ranges + taken;
    }
    assert Ranges(s[c..], size) == Some([]);
    assert taken + [] == taken;
    return true, r;
  }

  function Continued(taken: seq<Range>, more: Option<seq<Range>>): Option<seq<Range>> {
    if more.None? then None else Some(taken + more.value)
  }

  lemma ContinuedNothing(more: Option<seq<Range>>)
    ensures Continued([], more) == more
  {
    if more.Some? { assert [] + more.value == more.value; }
  }

  lemma ContinuedStep(taken: seq<Range>, range: Range, more: Option<seq<Range>>)
    ensures Continued(taken, Continued([range], more)) == Continued(taken + [range], more)
  {
    if more.Some? { assert taken + ([range] + more.value) == (taken + [range]) + more.value; }
  }

  lemma AppendableNone(ranges: seq<Range>)
    ensures Appendable(ranges, [])
  {
  }

  /** A range that clashes spoils the whole argument; one that does not joins the others. */
  lemma AppendableStep(ranges: seq<Range>, taken: seq<Range>, range: Range, more: Option<seq<Range>>)
    requires Appendable(ranges, taken)
    ensures Appendable(ranges + taken, [range]) ==> Appendable(ranges, taken + [range])
    ensures !Appendable(ranges + taken, [range]) && more.Some? ==>
            !Appendable(ranges, Continued(taken + [range], more).value)
  {
    var one := (ranges + taken) + [range];
    assert one == ranges + (taken + [range]);
    if more.Some? {
      var all := ranges + ((taken + [range]) + more.value);
      assert forall i :: 0 <= i < |one| ==> all[i] == one[i];
      if i, j :| 0 <= i < j < |one| && |ranges + taken| <= j && Clash(one[j], one[i]) {
        assert Clash(all[j], all[i]);
      }
    }
    if Appendable(ranges + taken, [range]) {
      forall i, j | 0 <= i < j < |one| && |ranges| <= j ensures !Clash(one[j], one[i]) {
        if j < |ranges + taken| {
          assert one[j] == (ranges + taken)[j] && one[i] == (ranges + taken)[i];
        }
      }
    }
  }

  // ----- physical volumes -----

  /** Device 0 stands for a volume whose device is not known. */
  type Device = nat

  datatype Pv = Pv(dev: Device, peCount: nat, peAllocCount: nat, allocatable: bool, missing: bool, tags: seq<string>)

  /** `names` is the device cache. */
  datatype Vg = Vg(pvs: seq<Pv>, names: map<string, Device>)

  datatype Entry = Entry(pv: Pv, ranges: seq<Range>)

  datatype Request = Request(pv: Pv, colon: Option<string>)

  predicate Skipped(pv: Pv, allocatableOnly: bool) {
    allocatableOnly && (!pv.allocatable || pv.missing || pv.peCount == pv.peAllocCount)
  }

  /** Where a device stands in the list, or the length of the list. */
  function IndexOf(r: seq<Entry>, dev: Device): (i: nat)
    ensures i <= |r| && (i < |r| ==> r[i].pv.dev == dev)
    ensures forall j :: 0 <= j < i ==> r[j].pv.dev != dev
  {
    if r == [] || r[0].pv.dev == dev then 0 else 1 + IndexOf(r[1..], dev)
  }

  function RangesOf(r: seq<Entry>, dev: Device): seq<Range> {
    var i := IndexOf(r, dev); if i < |r| then r[i].ranges else []
  }

  function WithRanges(r: seq<Entry>, pv: Pv, rs: seq<Range>): seq<Entry> {
    var i := IndexOf(r, pv.dev);
    if i < |r| then r[i := r[i].(ranges := r[i].ranges + rs)] else r + [Entry(pv, rs)]
  }

  /** The list after one more request, if that is accepted. */
  function Add(r: seq<Entry>, q: Request, allocatableOnly: bool): Option<seq<Entry>> {
    if Skipped(q.pv, allocatableOnly) then Some(r)
    else
      var rs := Wanted(q.colon, q.pv.peCount);
      if rs.None? || !Appendable(RangesOf(r, q.pv.dev), rs.value) then None else Some(WithRanges(r, q.pv, rs.value))
  }

  function AddAll(r: seq<Entry>, qs: seq<Request>, allocatableOnly: bool): Option<seq<Entry>>
    decreases |qs|
  {
    if qs == [] then Some(r)
    else
      var next := Add(r, qs[0], allocatableOnly);
      if next.None? then None else AddAll(next.value, qs[1..], allocatableOnly)
  }

  // ----- what an accepted list looks like -----

  ghost predicate PairwiseApart(rs: seq<Range>) {
    forall i, j :: 0 <= i < j < |rs| ==> Apart(rs[j], rs[i])
  }

  /** The range lies on some volume of the group that has this device. */
  ghost predicate OnDevice(range: Range, dev: Device, pvs: seq<Pv>) {
    exists pv :: pv in pvs && pv.dev == dev && Inside(range, pv.peCount)
  }

  ghost predicate SoundEntry(e: Entry, pvs: seq<Pv>) {
    && e.pv in pvs
    && e.ranges != []
    && PairwiseApart(e.ranges)
    && forall k :: 0 <= k < |e.ranges| ==> OnDevice(e.ranges[k], e.pv.dev, pvs)
  }

  ghost predicate EachDeviceOnce(r: seq<Entry>) {
    forall i, j :: 0 <= i < j < |r| ==> r[i].pv.dev != r[j].pv.dev
  }

  ghost predicate Sound(r: seq<Entry>, pvs: seq<Pv>) {
    EachDeviceOnce(r) && forall i :: 0 <= i < |r| ==> SoundEntry(r[i], pvs)
  }

  /** Volumes have at least one extent, unless they are skipped anyway. */
  ghost predicate HaveExtents(pvs: seq<Pv>, allocatableOnly: bool) {
    forall pv :: pv in pvs ==> pv.peCount <= UINT32_MAX && (pv.peCount > 0 || Skipped(pv, allocatableOnly))
  }

  ghost predicate Over(q: Request, pvs: seq<Pv>) {
    q.pv in pvs && q.colon != Some("")
  }

  lemma AppendedApart(before: seq<Range>, rs: seq<Range>)
    requires AllInside(before + rs, UINT32_MAX) && PairwiseApart(before) && Appendable(before, rs)
    ensures PairwiseApart(before + rs)
  {
    var all := before + rs;
    forall i, j | 0 <= i < j < |all| ensures Apart(all[j], all[i]) {
      if j < |before| {
        assert all[j] == before[j] && all[i] == before[i];
      } else {
        assert !Clash(all[j], all[i]);
        ClashExact(all[j], all[i]);
      }
    }
  }

  lemma GrownEntrySound(e: Entry, pv: Pv, rs: seq<Range>, pvs: seq<Pv>, allocatableOnly: bool)
    requires e.pv in pvs && pv in pvs && e.pv.dev == pv.dev && HaveExtents(pvs, allocatableOnly)
    requires e.ranges == [] || SoundEntry(e, pvs)
    requires rs != [] && AllInside(rs, pv.peCount) && Appendable(e.ranges, rs)
    ensures SoundEntry(e.(ranges := e.ranges + rs), pvs)
  {
    var all := e.ranges + rs;
    forall k | 0 <= k < |all| ensures OnDevice(all[k], e.pv.dev, pvs) && Inside(all[k], UINT32_MAX) {
      if k < |e.ranges| {
        assert all[k] == e.ranges[k] && OnDevice(e.ranges[k], e.pv.dev, pvs);
      } else {
        assert all[k] == rs[k - |e.ranges|] && Inside(rs[k - |e.ranges|], pv.peCount);
      }
    }
    AppendedApart(e.ranges, rs);
  }

  lemma AddKeepsSound(r: seq<Entry>, q: Request, allocatableOnly: bool, pvs: seq<Pv>)
    requires Sound(r, pvs) && HaveExtents(pvs, allocatableOnly) && Over(q, pvs)
    requires Add(r, q, allocatableOnly).Some?
    ensures Sound(Add(r, q, allocatableOnly).value, pvs)
  {
    if !Skipped(q.pv, allocatableOnly) {
      WantedInside(q.colon, q.pv.peCount);
      var rs := Wanted(q.colon, q.pv.peCount).value;
      hide Wanted, Appendable, AllInside, SoundEntry;
      var i := IndexOf(r, q.pv.dev);
      var e := if i < |r| then r[i] else Entry(q.pv, []);
      assert RangesOf(r, q.pv.dev) == e.ranges;
      GrownEntrySound(e, q.pv, rs, pvs, allocatableOnly);
      assert [] + rs == rs;
    }
  }

  lemma {:induction false} AddAllKeepsSound(r: seq<Entry>, qs: seq<Request>, allocatableOnly: bool, pvs: seq<Pv>)
    requires Sound(r, pvs) && HaveExtents(pvs, allocatableOnly) && AddAll(r, qs, allocatableOnly).Some?
    requires forall i :: 0 <= i < |qs| ==> Over(qs[i], pvs)
    ensures Sound(AddAll(r, qs, allocatableOnly).value, pvs)
    decreases |qs|
  {
    if qs != [] {
      hide Sound, Add, HaveExtents, Over;
      assert Over(qs[0], pvs);
      AddKeepsSound(r, qs[0], allocatableOnly, pvs);
      AddAllKeepsSound(Add(r, qs[0], allocatableOnly).value, qs[1..], allocatableOnly, pvs);
    }
  }

  ghost predicate AllOver(qs: seq<Request>, pvs: seq<Pv>) {
    forall i :: 0 <= i < |qs| ==> Over(qs[i], pvs)
  }

  // ----- arguments -----

  predicate TagChar(c: char) {
    'a' <= c <= 'z' || 'A' <= c <= 'Z' || '0' <= c <= '9' || c in "._-+/=!:&#"
  }

  predicate ValidTag(tag: string) {
    tag != "" && forall i :: 0 <= i < |tag| ==> TagChar(tag[i])
  }

  function DeviceOf(vg: Vg, name: string): Device {
    if name in vg.names then vg.names[name] else 0
  }

  function FindPv(pvs: seq<Pv>, dev: Device): (pv: Option<Pv>)
    ensures pv.Some? ==> pv.value in pvs && pv.value.dev == dev
    ensures pv.None? ==> forall p :: p in pvs ==> p.dev != dev
  {
    if pvs == [] then None else if pvs[0].dev == dev then Some(pvs[0]) else FindPv(pvs[1..], dev)
  }

  function Tagged(pvs: seq<Pv>, tag: string): (qs: seq<Request>)
    ensures forall i :: 0 <= i < |qs| ==> qs[i].pv in pvs && qs[i].colon == None
  {
    if pvs == [] then [] else (if tag in pvs[0].tags then [Request(pvs[0], None)] else []) + Tagged(pvs[1..], tag)
  }

  function FirstOf(ms: seq<Mark>, c: char): (p: Position)
    ensures p.At? ==> p.index < |ms| && ms[p.index] == Mark(c, false)
  {
    if ms == [] then Nowhere
    else if ms[0] == Mark(c, false) then At(0)
    else
      var p := FirstOf(ms[1..], c); if p.At? then At(p.index + 1) else Nowhere
  }

  lemma {:induction false} FirstIsFirst(ms: seq<Mark>, c: char, p: Position)
    requires FirstUnquoted(ms, c, p)
    ensures p == FirstOf(ms, c)
  {
    if ms != [] && ms[0] != Mark(c, false) {
      if p.At? {
        assert ms[..p.index][1..] == ms[1..][..p.index-1];
        assert forall x :: x in ms[1..][..p.index-1] ==> x in ms[..p.index];
        FirstIsFirst(ms[1..], c, At(p.index - 1));
      } else {
        assert forall x :: x in ms[1..] ==> x in ms;
        FirstIsFirst(ms[1..], c, Nowhere);
      }
    }
  }

  /** What an unescaped argument asks for: nothing for an invalid tag, nothing valid for an unknown volume. */
  function Asked(vg: Vg, text: string, colon: Position, atSign: Position): Option<seq<Request>>
    requires colon.At? ==> colon.index < |text|
    requires atSign.At? ==> atSign.index < |text|
  {
    if atSign == At(0) then Some(if ValidTag(text[1..]) then Tagged(vg.pvs, text[1..]) else [])
    else
      var pv := FindPv(vg.pvs, DeviceOf(vg, if colon.At? then text[..colon.index] else text));
      if pv.None? then None
      else Some([Request(pv.value, if colon.At? then Some(text[colon.index..]) else None)])
  }

  function Requests(vg: Vg, arg: string): Option<seq<Request>> {
    var ms := Marks(arg, ":@", '\\');
    Asked(vg, Text(ms), FirstOf(ms, ':'), FirstOf(ms, '@'))
  }

  function ListOf(vg: Vg, args: seq<string>, allocatableOnly: bool, r: seq<Entry>): Option<seq<Entry>>
    decreases |args|
  {
    if args == [] then Some(r)
    else
      var qs := Requests(vg, args[0]);
      if qs.None? then None
      else
        var next := AddAll(r, qs.value, allocatableOnly);
        if next.None? then None else ListOf(vg, args[1..], allocatableOnly, next.value)
  }

  lemma {:induction false} ListIsSound(vg: Vg, args: seq<string>, allocatableOnly: bool, r: seq<Entry>)
    requires Sound(r, vg.pvs) && HaveExtents(vg.pvs, allocatableOnly) && ListOf(vg, args, allocatableOnly, r).Some?
    ensures Sound(ListOf(vg, args, allocatableOnly, r).value, vg.pvs)
    decreases |args|
  {
    if args != [] {
      RequestsOver(vg, args[0]);
      hide Sound, HaveExtents, Over, Requests, AddAll;
      var qs := Requests(vg, args[0]).value;
      AddAllKeepsSound(r, qs, allocatableOnly, vg.pvs);
      ListIsSound(vg, args[1..], allocatableOnly, AddAll(r, qs, allocatableOnly).value);
    }
  }

  lemma RequestsOver(vg: Vg, arg: string)
    requires Requests(vg, arg).Some?
    ensures AllOver(Requests(vg, arg).value, vg.pvs)
  {
  }

  /** `_create_pv_entry` */
  method CreatePvEntry(r: seq<Entry>, pv: Pv, colon: Option<string>, allocatableOnly: bool) returns (ok: bool,
                       list: seq<Entry>)
    ensures (if ok then Some(list) else None) == Add(r, Request(pv, colon), allocatableOnly)
  {
    hide Wanted, Appendable;
    list := r;
    if allocatableOnly && !pv.allocatable {
      return true, r;
    }
    if allocatableOnly && pv.missing {
      return true, r;
    }
    if allocatableOnly && pv.peCount == pv.peAllocCount {
      return true, r;
    }
    var i := 0;
    while i < |r| && r[i].pv.dev != pv.dev
      invariant 0 <= i <= |r| && forall j :: 0 <= j < i ==> r[j].pv.dev != pv.dev
    {
      i := i + 1;
    }
    assert i == IndexOf(r, pv.dev);
    if i == |r| {
      list := r + [Entry(pv, [])];
    }
    assert list[i].ranges == RangesOf(r, pv.dev);
    var ranges;
    ok, ranges := ParsePes(colon, list[i].ranges, pv.peCount);
    if ok {
      assert i == |r| ==> ranges == Wanted(colon, pv.peCount).value;
      list := list[i := list[i].(ranges := ranges)];
      assert list == WithRanges(r, pv, Wanted(colon, pv.peCount).value);
    }
  }

  /** The requests of one argument, one after another. */
  method AddTagged(vg: Vg, tag: string, allocatableOnly: bool, r: seq<Entry>) returns (ok: bool, list: seq<Entry>)
    ensures (if ok then Some(list) else None) == AddAll(r, Tagged(vg.pvs, tag), allocatableOnly)
  {
    hide Add, AddAll, Tagged;
    list := r;
    assert vg.pvs[0..] == vg.pvs;
    for i := 0 to |vg.pvs|
      invariant AddAll(list, Tagged(vg.pvs[i..], tag), allocatableOnly) ==
                AddAll(r, Tagged(vg.pvs, tag), allocatableOnly)
    {
      var pv := vg.pvs[i];
      TaggedStep(vg.pvs, i, tag, list, allocatableOnly);
      if tag in pv.tags {
        ok, list := CreatePvEntry(list, pv, None, allocatableOnly);
        if !ok {
          return;
        }
      }
    }
    TaggedNone(tag);
    AddAllNothing(list, allocatableOnly);
    assert vg.pvs[|vg.pvs|..] == [];
    return true, list;
  }

  lemma TaggedNone(tag: string)
    ensures Tagged([], tag) == []
  {
  }

  /** The next volume of the group either carries the tag and is asked for, or is passed over. */
  lemma TaggedStep(pvs: seq<Pv>, i: nat, tag: string, r: seq<Entry>, allocatableOnly: bool)
    requires i < |pvs|
    ensures AddAll(r, Tagged(pvs[i..], tag), allocatableOnly) ==
      if tag in pvs[i].tags then
        match Add(r, Request(pvs[i], None), allocatableOnly)
        case None => None
        case Some(next) => AddAll(next, Tagged(pvs[i+1..], tag), allocatableOnly)
      else AddAll(r, Tagged(pvs[i+1..], tag), allocatableOnly)
  {
    hide Add;
    assert pvs[i..][1..] == pvs[i+1..];
    var rest := Tagged(pvs[i+1..], tag);
    assert ([Request(pvs[i], None)] + rest)[1..] == rest && [] + rest == rest;
  }

  /** The text in a buffer up to its terminator. */
  method StringIn(buf: array<char>, ghost s: string) returns (text: string)
    requires HoldsAt(buf[..], 0, s)
    ensures text == s
  {
    var n := 0;
    while buf[n] != NUL
      invariant 0 <= n <= |s|
      decreases buf.Length - n
    {
      n := n + 1;
    }
    text := buf[..n];
  }

  /** Unescaping a copy of an argument in place. */
  method Unescaped(arg: string) returns (text: string, colon: Position, atSign: Position)
    requires NulFree(arg)
    ensures var ms := Marks(arg, ":@", '\\');
      text == Text(ms) && colon == FirstOf(ms, ':') && atSign == FirstOf(ms, '@')
  {
    hide Marks, FirstOf;
    var all := arg + [NUL];
    var buf := new char[|all|](i requires 0 <= i < |all| => all[i]);
    assert buf[..] == all && all[0..|arg|] == arg;
    colon, atSign := UnescapeColonsAndAtSigns(buf, arg);
    ghost var ms := Marks(arg, ":@", '\\');
    FirstIsFirst(ms, ':', colon);
    FirstIsFirst(ms, '@', atSign);
    text := StringIn(buf, Text(ms));
  }

  /** `create_pv_list` */
  method CreatePvList(vg: Vg, argv: seq<string>, allocatableOnly: bool) returns (r: Option<seq<Entry>>)
    requires forall i :: 0 <= i < |argv| ==> NulFree(argv[i])
    ensures r == match ListOf(vg, argv, allocatableOnly, [])
                 case None => None
                 case Some(l) => if l == [] then None else Some(l)
    ensures HaveExtents(vg.pvs, allocatableOnly) && r.Some? ==> Sound(r.value, vg.pvs)
  {
    hide AddAll, Sound, HaveExtents;
    var list: seq<Entry> := [];
    assert argv[0..] == argv;
    for i := 0 to |argv|
      invariant ListOf(vg, argv[i..], allocatableOnly, list) == ListOf(vg, argv, allocatableOnly, [])
    {
      assert argv[i..][1..] == argv[i+1..];
      var text, colon, atSign := Unescaped(argv[i]);
      var ok;
      ok, list := AddArgument(vg, text, colon, atSign, allocatableOnly, list);
      if !ok {
        return None;
      }
    }
    if HaveExtents(vg.pvs, allocatableOnly) {
      EmptyIsSound(vg.pvs);
      ListIsSound(vg, argv, allocatableOnly, []);
    }
    return if list == [] then None else Some(list);
  }

  lemma EmptyIsSound(pvs: seq<Pv>)
    ensures Sound([], pvs)
  {
  }

  /** One round of `create_pv_list`. */
  method AddArgument(vg: Vg, text: string, colon: Position, atSign: Position, allocatableOnly: bool, r: seq<Entry>)
    returns (ok: bool, list: seq<Entry>)
    requires colon.At? ==> colon.index < |text|
    requires atSign.At? ==> atSign.index < |text|
    ensures (if ok then Some(list) else None) ==
      match Asked(vg, text, colon, atSign) case None => None case Some(qs) => AddAll(r, qs, allocatableOnly)
  {
    hide Add, AddAll, Tagged, ValidTag;
    if atSign == At(0) {
      var tag := text[1..];
      if !ValidTag(tag) {
        AddAllNothing(r, allocatableOnly);
        return true, r;
      }
      ok, list := AddTagged(vg, tag, allocatableOnly, r);
      return;
    }
    var name := text;
    if colon.At? {
      name := text[..colon.index];
    }
    var pv := FindPvInVg(vg, name);
    if pv.None? {
      return false, r;
    }
    AddAllOne(r, Request(pv.value, if colon.At? then Some(text[colon.index..]) else None), allocatableOnly);
    ok, list := CreatePvEntry(r, pv.value, if colon.At? then Some(text[colon.index..]) else None, allocatableOnly);
  }

  lemma AddAllNothing(r: seq<Entry>, allocatableOnly: bool)
    ensures AddAll(r, [], allocatableOnly) == Some(r)
  {
  }

  lemma AddAllOne(r: seq<Entry>, q: Request, allocatableOnly: bool)
    ensures AddAll(r, [q], allocatableOnly) == Add(r, q, allocatableOnly)
  {
    assert [q][1..] == [];
  }

  /** `find_pv_in_vg`: the first volume on the device. */
  method FindPvInVg(vg: Vg, name: string) returns (pv: Option<Pv>)
    ensures pv == FindPv(vg.pvs, DeviceOf(vg, name))
    ensures pv.None? ==> forall j :: 0 <= j < |vg.pvs| ==> vg.pvs[j].dev != DeviceOf(vg, name)
    ensures pv.Some? ==>
      exists i :: 0 <= i < |vg.pvs| && pv.value == vg.pvs[i] && vg.pvs[i].dev == DeviceOf(vg, name) &&
                  forall j :: 0 <= j < i ==> vg.pvs[j].dev != DeviceOf(vg, name)
  {
    var dev := DeviceOf(vg, name);
    assert vg.pvs[0..] == vg.pvs;
    for i := 0 to |vg.pvs|
      invariant FindPv(vg.pvs[i..], dev) == FindPv(vg.pvs, dev)
      invariant forall j :: 0 <= j < i ==> vg.pvs[j].dev != dev
    {
      assert vg.pvs[i..][1..] == vg.pvs[i+1..];
      if vg.pvs[i].dev == dev {
        return Some(vg.pvs[i]);
      }
    }
    return None;
  }
}
