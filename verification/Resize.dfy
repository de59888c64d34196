/**
The size computation of `_lvresize`: rounding to extents, percentages, signs, and rounding
to stripe groups, in the 32-bit arithmetic of the program.
*/
module Resize {
  import opened Words

  const MAX_EXTENT_COUNT := UINT32_MAX

  datatype Sign = NoSign | Plus | Minus
  datatype Percent = NoPercent | PercentVg | PercentFree | PercentLv | PercentPvs | PercentOrigin
  datatype Mode = Any | Reduce | Extend

  /** A segment of the volume; `stripes` is 0 where it is not striped. */
  datatype Segment = Segment(len: U32, striped: bool, stripes: U32, stripeSize: U32)

  /** `struct lvresize_params` before the computation. */
  datatype Request = Request(size: U64, extents: U32, sign: Sign, percent: Percent, stripes: U32, stripeSize: U32,
                             mode: Mode, resizefs: bool, usePolicy: bool)

  /**
  The volume and its group.  `segments` are the volume's own; `dataSegments` those searched for
  stripes when extending, which for mirrors and thin pools lie underneath.
  */
  datatype Volume = Volume(leCount: U32, segments: seq<Segment>, dataSegments: seq<Segment>, originLeCount: Option<U32>,
                           extentSize: U32, extentCount: U32, freeCount: U32, pvsGiven: bool, pvsFree: U32,
                           minStripeSize: U32, defaultStripeSize: U32)

  datatype Plan = Sized(extents: U32, mode: Mode) | NothingToDo | Invalid | DividesByZero

  // ----- whole extents -----

  /** Rounding a size in sectors to whole extents: down when taking away, up otherwise. */
  function RoundedSize(size: U64, extentSize: U32, sign: Sign): U64
    requires extentSize > 0
  {
    if size % extentSize == 0 then size
    else if sign == Minus then size - size % extentSize
    else Wrap64(size + (extentSize - size % extentSize))
  }

  /** The whole extents next to a size, in the direction of the rounding. */
  ghost predicate Nearest(size: nat, extentSize: U32, sign: Sign, r: int)
    requires extentSize > 0
  {
    IsMultiple(r, extentSize) && if sign == Minus then r <= size < r + extentSize else size <= r < size + extentSize
  }

  /** Rounding finds them, except that rounding up wraps around past the last whole extent below 2 to the 64th. */
  lemma RoundedSizeIsNearestIff(size: U64, extentSize: U32, sign: Sign)
    requires extentSize > 0
    ensures Nearest(size, extentSize, sign, RoundedSize(size, extentSize, sign)) <==>
            sign == Minus || size <= DownTo(TWO_64 - 1, extentSize)
  {
    RoundedSizeIs(size, extentSize, sign);
    hide RoundedSize, IsMultiple, DownTo, UpTo;
    DownToIs(size, extentSize);
    UpToIs(size, extentSize);
    DownToIs(TWO_64 - 1, extentSize);
    if size <= DownTo(TWO_64 - 1, extentSize) {
      UpToLeast(size, extentSize, DownTo(TWO_64 - 1, extentSize));
    } else if UpTo(size, extentSize) < TWO_64 {
      DownToMost(TWO_64 - 1, extentSize, UpTo(size, extentSize));
    }
  }

  lemma RoundedSizeIs(size: U64, extentSize: U32, sign: Sign)
    requires extentSize > 0
    ensures var r, up := RoundedSize(size, extentSize, sign), UpTo(size, extentSize);
      r == if sign == Minus then DownTo(size, extentSize) else if up < TWO_64 then up else up - TWO_64
  {
    UpToIs(size, extentSize);
  }

  /** One sector more than 2 to the 64th less one extent of eight sectors comes out as nothing. */
  lemma LargestSizeVanishes(sign: Sign)
    requires sign != Minus
    ensures RoundedSize(TWO_64 - 7, 8, sign) == 0
  {
  }

  /** `percent_of_extents` */
  function PercentOf(percents: U32, count: U32, roundUp: bool): U32 {
    Wrap32((percents * count + if roundUp then 99 else 0) / 100)
  }

  lemma ProductFits(percents: U32, count: U32)
    ensures 0 <= percents * count + 99 < TWO_64
  {
    MulMonotone(percents, count, UINT32_MAX, UINT32_MAX);
  }

  /** A share of at most the whole stays at most the whole, and is rounded the right way. */
  lemma PercentOfPart(percents: U32, count: U32, roundUp: bool)
    requires percents <= 100
    ensures var r := PercentOf(percents, count, roundUp);
      && r <= count
      && if roundUp then 100 * r >= percents * count > 100 * (r - 1)
         else 100 * r <= percents * count < 100 * (r + 1)
  {
    MulMonotone(percents, count, 100, count);
  }

  /** The extents asked for before any rounding to stripes. */
  function Asked(q: Request, v: Volume): Option<U32>
    requires v.extentSize > 0
  {
    var extents := if q.size != 0 then Wrap32(RoundedSize(q.size, v.extentSize, q.sign) / v.extentSize) else q.extents;
    match q.percent
    case NoPercent => Some(extents)
    case PercentVg => Some(PercentOf(extents, v.extentCount, q.sign != Minus))
    case PercentFree => Some(PercentOf(extents, v.freeCount, q.sign != Minus))
    case PercentLv => Some(PercentOf(extents, v.leCount, q.sign != Minus))
    case PercentPvs => Some(PercentOf(extents, if v.pvsGiven then v.pvsFree else v.extentCount, q.sign != Minus))
    case PercentOrigin =>
      if v.originLeCount.None? then None else Some(PercentOf(extents, v.originLeCount.value, q.sign != Minus))
  }

  /** The new size asked for, once the sign is taken into account. */
  function Target(q: Request, v: Volume): (r: Option<U32>)
    requires v.extentSize > 0
    ensures r.Some? ==> r.value > 0
  {
    var a := Asked(q, v);
    if a.None? then None
    else if q.sign == Plus && a.value >= MAX_EXTENT_COUNT - v.leCount then None
    else if q.sign == Minus && a.value >= v.leCount then None
    else
      var t := if q.sign == Plus then a.value + v.leCount else if q.sign == Minus then v.leCount - a.value else a.value;
      if t == 0 then None else Some(t)
  }

  // ----- stripes -----

  datatype Striping = Striping(stripes: U32, stripeSize: U32)

  /** The striping of the last striped segment, unless two differ where the request leaves it open. */
  function LastStriping(segments: seq<Segment>, q: Request, seen: Striping): Option<Striping>
    decreases |segments|
  {
    if segments == [] then Some(seen)
    else
      var seg := segments[0];
      if !seg.striped then LastStriping(segments[1..], q, seen)
      else if (seen.stripeSize != 0 && seen.stripeSize != seg.stripeSize && seg.stripeSize != 0 && q.stripeSize == 0)
           || (seen.stripes != 0 && seen.stripes != seg.stripes && q.stripes == 0) then None
      else LastStriping(segments[1..], q, Striping(seg.stripes, seg.stripeSize))
  }

  function ExtendStriping(q: Request, v: Volume): Option<Striping> {
    if q.stripes == 1 || (q.stripes > 1 && q.stripeSize != 0) then Some(Striping(q.stripes, q.stripeSize))
    else
      var last := LastStriping(v.dataSegments, q, Striping(0, 0));
      if last.None? then None
      else
        var stripes := if q.stripes == 0 then last.value.stripes else q.stripes;
        Some(Striping(stripes,
          if q.stripeSize == 0 && stripes > 1 then
            if last.value.stripeSize != 0 then last.value.stripeSize else v.defaultStripeSize
          else q.stripeSize))
  }

  /** Where a size falls: the segment that holds its last extent, and the extents before that segment. */
  datatype Place = Place(segment: Segment, used: U32)

  function PlaceOf(segments: seq<Segment>, extents: U32, used: U32, seen: Segment): Place
    decreases |segments|
  {
    if segments == [] then Place(seen, used)
    else if extents <= Wrap32(used + segments[0].len) then Place(segments[0], used)
    else PlaceOf(segments[1..], extents, Wrap32(used + segments[0].len), segments[0])
  }

  const NO_SEGMENT := Segment(0, false, 0, 0)

  /** The striping that decides the rounding, and the size within the segment it belongs to. */
  function Basis(q: Request, v: Volume, target: U32): Option<(Striping, U32)> {
    if target < v.leCount then
      var p := PlaceOf(v.segments, target, 0, NO_SEGMENT);
      Some((Striping(p.segment.stripes, p.segment.stripeSize), Wrap32(target - p.used)))
    else if target > v.leCount then
      var s := ExtendStriping(q, v);
      if s.None? then None else Some((s.value, target - v.leCount))
    else Some((Striping(q.stripes, q.stripeSize), 0))
  }

  /** Extents in a stripe group. */
  function Group(s: Striping, extentSize: U32): U32
    requires extentSize > 0
  {
    Wrap32(s.stripes * if s.stripeSize / extentSize == 0 then 1 else s.stripeSize / extentSize)
  }

  /** Rounding to stripe groups: toward the original size, and never past the free extents for a percentage. */
  function RoundedToGroup(target: U32, segSize: U32, group: U32, q: Request, v: Volume): U32
    requires group > 0
  {
    RoundedBy(target, segSize % group, group, q, v)
  }

  function RoundedBy(target: U32, rest: U32, group: U32, q: Request, v: Volume): U32 {
    if rest == 0 then target
    else if target < v.leCount || q.percent == NoPercent || v.freeCount >= Wrap32(target - v.leCount - rest + group)
    then Wrap32(target - rest + group)
    else Wrap32(target - rest)
  }

  function Classified(extents: U32, q: Request, v: Volume): Plan {
    if extents < v.leCount then if q.mode == Extend then Invalid else Sized(extents, Reduce)
    else if extents > v.leCount then if q.mode == Reduce then Invalid else Sized(extents, Extend)
    else if q.usePolicy then NothingToDo
    else if !q.resizefs then Invalid
    else Sized(extents, Extend)
  }

  /** A volume already of the target size only goes on to a file system resize, as an extension. */
  function EffectiveRequest(q: Request, v: Volume, target: U32): Request {
    if target == v.leCount then q.(mode := Extend) else q
  }

  /** The whole computation. */
  function Planned(q: Request, v: Volume): Plan
    requires v.extentSize > 0
  {
    var t := Target(q, v);
    if t.None? then Invalid
    else if t.value == v.leCount && q.usePolicy then NothingToDo
    else if t.value == v.leCount && !q.resizefs then Invalid
    else
      var q' := EffectiveRequest(q, v, t.value);
      var b := Basis(q', v, t.value);
      if b.None? then Invalid
      else
        var (s, segSize) := b.value;
        if s.stripes <= 1 then Classified(t.value, q', v)
        else if s.stripeSize == 0 || s.stripeSize < v.minStripeSize then Invalid
        else if Group(s, v.extentSize) == 0 then DividesByZero
        else Classified(RoundedToGroup(t.value, segSize, Group(s, v.extentSize), q', v), q', v)
  }

  // ----- reducing -----

  function Total(segments: seq<Segment>): nat {
    if segments == [] then 0 else segments[0].len + Total(segments[1..])
  }

  function StripingOf(seg: Segment): Striping {
    Striping(seg.stripes, seg.stripeSize)
  }

  /** Every striped segment holds a whole number of its stripe groups. */
  ghost predicate WholeGroups(v: Volume)
    requires v.extentSize > 0
  {
    forall i :: 0 <= i < |v.segments| && v.segments[i].stripes > 1 ==>
      var g := Group(StripingOf(v.segments[i]), v.extentSize); g > 0 && IsMultiple(v.segments[i].len, g)
  }

  /** The last extent of a size lies in the segment that is found. */
  lemma {:induction false} PlaceHoldsEnd(segments: seq<Segment>, extents: U32, used: U32,
                                         seen: Segment) returns (k: nat)
    requires used < extents <= used + Total(segments) <= UINT32_MAX
    ensures k < |segments|
    ensures used + Total(segments[..k]) < extents <= used + Total(segments[..k]) + segments[k].len
    ensures used + Total(segments[..k]) + segments[k].len <= used + Total(segments)
    ensures PlaceOf(segments, extents, used, seen) == Place(segments[k], used + Total(segments[..k]))
    decreases |segments|
  {
    if extents <= used + segments[0].len {
      k := 0;
    } else {
      k := PlaceHoldsEnd(segments[1..], extents, used + segments[0].len, segments[0]);
      assert segments[..k+1][1..] == segments[1..][..k];
      k := k + 1;
    }
  }

  /** Rounding up is to the next boundary of the segment, rounding down to the last. */
  lemma RoundedToGroupIs(target: U32, segSize: U32, g: U32, q: Request, v: Volume)
    requires g > 0 && segSize <= target
    ensures var up := target < v.leCount || q.percent == NoPercent
                      || v.freeCount >= Wrap32(target - v.leCount - segSize + UpTo(segSize, g));
      RoundedToGroup(target, segSize, g, q, v) ==
      if IsMultiple(segSize, g) then target
      else if up then Wrap32(target - segSize + UpTo(segSize, g))
      else target - segSize + DownTo(segSize, g)
  {
    hide Wrap32, IsMultiple, DownTo, RoundedBy;
    DownToIs(segSize, g);
    RoundedByIs(target, segSize, segSize % g, g, q, v);
  }

  lemma RoundedByIs(target: U32, segSize: U32, rest: U32, g: U32, q: Request, v: Volume)
    requires g > 0 && segSize <= target && 0 <= DownTo(segSize, g) <= segSize && rest == segSize - DownTo(segSize, g)
    requires rest == 0 <==> IsMultiple(segSize, g)
    ensures var up := target < v.leCount || q.percent == NoPercent
                      || v.freeCount >= Wrap32(target - v.leCount - segSize + UpTo(segSize, g));
      RoundedBy(target, rest, g, q, v) ==
      if IsMultiple(segSize, g) then target
      else if up then Wrap32(target - segSize + UpTo(segSize, g))
      else target - segSize + DownTo(segSize, g)
  {
    hide Wrap32, IsMultiple, DownTo;
    if rest != 0 {
      assert target - rest + g == target - segSize + UpTo(segSize, g);
      assert target - v.leCount - rest + g == target - v.leCount - segSize + UpTo(segSize, g);
    }
  }

  /** What a reduction comes out at, within segment `k`. */
  ghost predicate LandsIn(v: Volume, k: nat, target: U32, n: U32)
    requires v.extentSize > 0 && k < |v.segments|
  {
    var used, seg := Total(v.segments[..k]), v.segments[k];
    && used < target <= n <= used + seg.len <= v.leCount
    && if seg.stripes <= 1 then n == target
       else
         var g := Group(StripingOf(seg), v.extentSize);
         g > 0 && IsMultiple(n - used, g) && n < target + g
  }

  lemma ReducedSize(q: Request, v: Volume, target: U32, k: nat)
    requires v.extentSize > 0 && WholeGroups(v) && k < |v.segments| && target < v.leCount
    requires var used := Total(v.segments[..k]); used < target <= used + v.segments[k].len <= v.leCount
    requires v.segments[k].stripes > 1
    ensures var g := Group(StripingOf(v.segments[k]), v.extentSize);
      g > 0 && LandsIn(v, k, target, RoundedToGroup(target, target - Total(v.segments[..k]), g, q, v))
  {
    hide Group, RoundedToGroup, IsMultiple, UpTo, DownTo, Total;
    var seg, used := v.segments[k], Total(v.segments[..k]);
    var g := Group(StripingOf(seg), v.extentSize);
    var segSize := target - used;
    RoundedToGroupIs(target, segSize, g, q, v);
    UpToIs(segSize, g);
    UpToLeast(segSize, g, seg.len);
  }

  /**
  Reducing a volume whose segments hold whole stripe groups: the new end lies in the segment that
  holds the end asked for, on a stripe boundary of it, less than one group beyond what was asked
  for, and the volume does not grow.
  */
  lemma ReduceLandsOnBoundary(q: Request, v: Volume) returns (k: nat)
    requires v.extentSize > 0 && Total(v.segments) == v.leCount && WholeGroups(v)
    requires Target(q, v).Some? && Target(q, v).value < v.leCount
    ensures k < |v.segments| && Planned(q, v) != DividesByZero
    ensures Planned(q, v).Sized? ==>
      LandsIn(v, k, Target(q, v).value, Planned(q, v).extents) && Planned(q, v).extents <= v.leCount
    ensures Planned(q, v).Sized? ==> (Planned(q, v).mode == Reduce <==> Planned(q, v).extents < v.leCount)
  {
    hide Target, RoundedToGroup, Group, LandsIn;
    var t := Target(q, v).value;
    k := PlaceHoldsEnd(v.segments, t, 0, NO_SEGMENT);
    var seg := v.segments[k];
    assert Basis(q, v, t) == Some((StripingOf(seg), t - Total(v.segments[..k])));
    if seg.stripes > 1 {
      ReducedSize(q, v, t, k);
      LandingBounds(v, k, t, RoundedToGroup(t, t - Total(v.segments[..k]), Group(StripingOf(seg), v.extentSize), q, v));
    } else {
      assert LandsIn(v, k, t, t) by { LandsExactly(v, k, t); }
    }
  }

  lemma LandingBounds(v: Volume, k: nat, target: U32, n: U32)
    requires v.extentSize > 0 && k < |v.segments| && LandsIn(v, k, target, n)
    ensures target <= n <= v.leCount
  {
  }

  lemma LandsExactly(v: Volume, k: nat, target: U32)
    requires v.extentSize > 0 && k < |v.segments| && v.segments[k].stripes <= 1
    requires var used := Total(v.segments[..k]); used < target <= used + v.segments[k].len <= v.leCount
    ensures LandsIn(v, k, target, target)
  {
  }

  // ----- when a reduction goes astray -----

  lemma {:induction false} PlaceAt(segments: seq<Segment>, k: nat, extents: U32, used: U32, seen: Segment)
    requires k < |segments| && used + Total(segments) <= UINT32_MAX
    requires used + Total(segments[..k]) < extents <= used + Total(segments[..k]) + segments[k].len
    ensures used + Total(segments[..k]) + segments[k].len <= used + Total(segments)
    ensures PlaceOf(segments, extents, used, seen) == Place(segments[k], used + Total(segments[..k]))
    decreases k
  {
    if k > 0 {
      assert segments[..k][1..] == segments[1..][..k-1];
      PlaceAt(segments[1..], k - 1, extents, used + segments[0].len, segments[0]);
    } else {
      assert segments[..0] == [];
    }
  }

  /** Segment `k` is striped in a way the command accepts. */
  predicate Rounds(v: Volume, k: nat)
    requires v.extentSize > 0 && k < |v.segments|
  {
    var seg := v.segments[k];
    seg.stripes > 1 && seg.stripeSize > 0 && seg.stripeSize >= v.minStripeSize && GroupOf(v, k) > 0
  }

  function GroupOf(v: Volume, k: nat): U32
    requires v.extentSize > 0 && k < |v.segments|
  {
    Group(StripingOf(v.segments[k]), v.extentSize)
  }

  /** The most extents of segment `k` that a reduction can ask to keep: all of them, unless it ends the volume. */
  function Keepable(v: Volume, k: nat): int
    requires k < |v.segments|
  {
    if Total(v.segments[..k]) + v.segments[k].len == v.leCount then v.segments[k].len - 1 else v.segments[k].len
  }

  /** Where asking for that many ends up before the count wraps around. */
  function Boundary(v: Volume, k: nat): nat
    requires v.extentSize > 0 && k < |v.segments| && Rounds(v, k) && Keepable(v, k) >= 0
  {
    Total(v.segments[..k]) + UpTo(Keepable(v, k), GroupOf(v, k))
  }

  /** A reduction planned within segment `k`. */
  lemma PlannedReduction(q: Request, v: Volume, k: nat, target: U32)
    requires v.extentSize > 0 && Total(v.segments) == v.leCount && k < |v.segments|
    requires Target(q, v) == Some(target) && target < v.leCount
    requires var used := Total(v.segments[..k]); used < target <= used + v.segments[k].len
    ensures Planned(q, v) ==
      if v.segments[k].stripes <= 1 then Classified(target, q, v)
      else if Rounds(v, k) then
        var used := Total(v.segments[..k]);
        Classified(Wrap32(used + UpTo(target - used, GroupOf(v, k))), q, v)
      else if GroupOf(v, k) == 0 && v.segments[k].stripeSize > 0 && v.segments[k].stripeSize >= v.minStripeSize
      then DividesByZero
      else Invalid
  {
    hide Target, Group, Wrap32, Classified, RoundedToGroup, IsMultiple, UpTo, DownTo;
    PlaceAt(v.segments, k, target, 0, NO_SEGMENT);
    var used := Total(v.segments[..k]);
    if Rounds(v, k) {
      RoundedToGroupIs(target, target - used, GroupOf(v, k), q, v);
      UpToIs(target - used, GroupOf(v, k));
    }
  }

  /** Rounding up stays within `most` or goes where `most` itself goes. */
  lemma UpWithin(m: nat, most: nat, g: int)
    requires 0 < g && m <= most
    ensures m <= UpTo(m, g) && (UpTo(m, g) <= most || UpTo(m, g) == UpTo(most, g))
    ensures UpTo(most, g) < most + g
  {
    hide UpTo, IsMultiple;
    UpToIs(m, g);
    UpToIs(most, g);
    if UpTo(m, g) > most {
      UpToLeast(m, g, UpTo(most, g));
      UpToLeast(most, g, UpTo(m, g));
    }
  }

  lemma LandsBetween(used: nat, m: nat, most: nat, g: U32, le: U32)
    requires g > 0 && m <= most && used + most <= le
    ensures var n, top := Wrap32(used + UpTo(m, g)), used + UpTo(most, g);
      && (top <= le || top > UINT32_MAX ==> n <= le)
      && (top <= le ==> used + m <= n <= le)
  {
    hide Wrap32, UpTo;
    UpWithin(m, most, g);
    UpWithin(most, most, g);
    WrapOnce(used + UpTo(m, g));
  }

  lemma {:induction false} PrefixTotal(segments: seq<Segment>, k: nat)
    requires k < |segments|
    ensures Total(segments[..k]) + segments[k].len <= Total(segments)
  {
    if k > 0 {
      assert segments[..k][1..] == segments[1..][..k-1];
      PrefixTotal(segments[1..], k - 1);
    }
  }

  /** Every reduction lands between what was asked for and the old size. */
  ghost predicate ReducesWithin(v: Volume)
    requires v.extentSize > 0
  {
    forall q :: Target(q, v).Some? && Target(q, v).value < v.leCount && Planned(q, v).Sized? ==>
      Target(q, v).value <= Planned(q, v).extents <= v.leCount
  }

  /** No reduction makes the volume larger. */
  ghost predicate NeverGrows(v: Volume)
    requires v.extentSize > 0
  {
    forall q :: Target(q, v).Some? && Target(q, v).value < v.leCount && Planned(q, v).Sized? ==>
      Planned(q, v).extents <= v.leCount
  }

  ghost predicate BoundaryInside(v: Volume, k: nat)
    requires v.extentSize > 0 && k < |v.segments|
  {
    Rounds(v, k) && Keepable(v, k) > 0 ==> Boundary(v, k) <= v.leCount
  }

  ghost predicate BoundaryInsideOrWraps(v: Volume, k: nat)
    requires v.extentSize > 0 && k < |v.segments|
  {
    Rounds(v, k) && Keepable(v, k) > 0 ==> Boundary(v, k) <= v.leCount || Boundary(v, k) > UINT32_MAX
  }

  lemma ReductionLands(q: Request, v: Volume)
    requires v.extentSize > 0 && Total(v.segments) == v.leCount
    requires Target(q, v).Some? && Target(q, v).value < v.leCount && Planned(q, v).Sized?
    ensures (forall k :: 0 <= k < |v.segments| ==> BoundaryInsideOrWraps(v, k)) ==> Planned(q, v).extents <= v.leCount
    ensures (forall k :: 0 <= k < |v.segments| ==> BoundaryInside(v, k)) ==>
            Target(q, v).value <= Planned(q, v).extents <= v.leCount
  {
    hide Target, Planned, Group, Wrap32, UpTo;
    var t := Target(q, v).value;
    var k := PlaceHoldsEnd(v.segments, t, 0, NO_SEGMENT);
    PlannedReduction(q, v, k, t);
    var used := Total(v.segments[..k]);
    if Rounds(v, k) {
      var most, g := Keepable(v, k), GroupOf(v, k);
      LandsBetween(used, t - used, most, g, v.leCount);
      assert BoundaryInside(v, k) ==> Boundary(v, k) <= v.leCount;
      assert BoundaryInsideOrWraps(v, k) ==> Boundary(v, k) <= v.leCount || Boundary(v, k) > UINT32_MAX;
    }
  }

  /** A request for the size at which segment `k` goes furthest astray. */
  function Witness(v: Volume, k: nat): Request
    requires k < |v.segments|
  {
    Request(0, Wrap32(Total(v.segments[..k]) + Keepable(v, k)), NoSign, NoPercent, 0, 0, Any, false, false)
  }

  lemma WitnessPlan(v: Volume, k: nat)
    requires v.extentSize > 0 && Total(v.segments) == v.leCount && k < |v.segments| && Rounds(v, k)
    requires Keepable(v, k) > 0
    ensures var t := Total(v.segments[..k]) + Keepable(v, k);
      && t < v.leCount && Target(Witness(v, k), v) == Some(t)
      && Planned(Witness(v, k), v) == Classified(Wrap32(Boundary(v, k)), Witness(v, k), v)
      && Boundary(v, k) < t + TWO_32
  {
    hide Planned, Group, Wrap32;
    var used := Total(v.segments[..k]);
    PrefixTotal(v.segments, k);
    PlannedReduction(Witness(v, k), v, k, used + Keepable(v, k));
    UpWithin(Keepable(v, k), Keepable(v, k), GroupOf(v, k));
  }

  lemma Astray(v: Volume, k: nat)
    requires v.extentSize > 0 && Total(v.segments) == v.leCount && k < |v.segments|
    ensures !BoundaryInsideOrWraps(v, k) ==> !NeverGrows(v)
    ensures !BoundaryInside(v, k) ==> !ReducesWithin(v)
  {
    if !BoundaryInside(v, k) {
      hide Planned, Target, Wrap32, Boundary;
      WitnessPlan(v, k);
      WrapOnce(Boundary(v, k));
      var q := Witness(v, k);
      assert Planned(q, v).Sized?;
    }
  }

  /**
  When every reduction lands between what was asked for and the old size: exactly when in every
  striped segment the last boundary that can be asked for is inside the volume.
  */
  lemma ReducesWithinIff(v: Volume)
    requires v.extentSize > 0 && Total(v.segments) == v.leCount
    ensures ReducesWithin(v) <==> forall k :: 0 <= k < |v.segments| ==> BoundaryInside(v, k)
  {
    hide Planned, Target, BoundaryInside;
    forall k | 0 <= k < |v.segments| && !BoundaryInside(v, k) ensures !ReducesWithin(v) { Astray(v, k); }
    forall q | Target(q, v).Some? && Target(q, v).value < v.leCount && Planned(q, v).Sized?
      ensures (forall k :: 0 <= k < |v.segments| ==> BoundaryInside(v, k)) ==>
              Target(q, v).value <= Planned(q, v).extents <= v.leCount
    {
      ReductionLands(q, v);
    }
  }

  /** When no reduction makes the volume grow: a boundary past 32 bits wraps below it, any other must be inside. */
  lemma NeverGrowsIff(v: Volume)
    requires v.extentSize > 0 && Total(v.segments) == v.leCount
    ensures NeverGrows(v) <==> forall k :: 0 <= k < |v.segments| ==> BoundaryInsideOrWraps(v, k)
  {
    hide Planned, Target, BoundaryInsideOrWraps;
    forall k | 0 <= k < |v.segments| && !BoundaryInsideOrWraps(v, k) ensures !NeverGrows(v) { Astray(v, k); }
    forall q | Target(q, v).Some? && Target(q, v).value < v.leCount && Planned(q, v).Sized?
      ensures (forall k :: 0 <= k < |v.segments| ==> BoundaryInsideOrWraps(v, k)) ==> Planned(q, v).extents <= v.leCount
    {
      ReductionLands(q, v);
    }
  }

  /** A striped volume of one segment with two or more extents left over grows when asked to give up its last extent. */
  lemma ReductionThatGrows(q: Request, v: Volume, g: U32)
    requires v.extentSize > 0 && |v.segments| == 1 && v.segments[0].len == v.leCount && v.segments[0].stripes > 1
    requires g == Group(StripingOf(v.segments[0]), v.extentSize) && g > 1 && v.leCount % g > 1
    requires v.segments[0].stripeSize >= v.minStripeSize && v.segments[0].stripeSize > 0 && v.leCount + g <= UINT32_MAX
    requires q.size == 0 && q.extents == v.leCount - 1 && q.sign == NoSign && q.percent == NoPercent && q.mode == Any
    ensures Planned(q, v) == Sized(DownTo(v.leCount, g) + g, Extend)
  {
    hide Group, Wrap32, RoundedToGroup, Planned, UpTo, DownTo, IsMultiple;
    var len := v.leCount;
    UpToOneLess(len, g);
    assert Target(q, v) == Some(len - 1);
    assert v.segments[..0] == [];
    PlannedReduction(q, v, 0, len - 1);
  }

  lemma UpToOneLess(len: nat, g: int)
    requires g > 1 && len % g > 1
    ensures UpTo(len - 1, g) == DownTo(len, g) + g && len < DownTo(len, g) + g <= len + g
  {
    DownToIs(len, g);
    DivModUnique(len - 1, g, len / g, len % g - 1);
  }

  // ----- extending -----

  /** The stripe group that decides an extension, if it is striped. */
  ghost predicate ExtendsByGroup(q: Request, v: Volume, target: U32, g: U32)
    requires v.extentSize > 0
  {
    && Target(q, v) == Some(target) && target > v.leCount
    && ExtendStriping(q, v).Some? && ExtendStriping(q, v).value.stripes > 1
    && g == Group(ExtendStriping(q, v).value, v.extentSize) && g > 0
  }

  /** A striped extension that the command accepts as far as its stripes go. */
  ghost predicate StripedExtension(q: Request, v: Volume, target: U32, g: U32)
    requires v.extentSize > 0
  {
    && ExtendsByGroup(q, v, target, g) && q.mode != Reduce
    && ExtendStriping(q, v).value.stripeSize > 0 && ExtendStriping(q, v).value.stripeSize >= v.minStripeSize
  }

  /** Whether the added extents are rounded up: always without a percentage, otherwise if there seem to be enough. */
  predicate RoundsUp(q: Request, v: Volume, added: nat, g: U32)
    requires g > 0
  {
    !IsMultiple(added, g) && (q.percent == NoPercent || v.freeCount >= Wrap32(UpTo(added, g)))
  }

  lemma ExtensionPlanned(q: Request, v: Volume, target: U32, g: U32)
    requires v.extentSize > 0 && StripedExtension(q, v, target, g)
    ensures Planned(q, v) == Classified(RoundedToGroup(target, target - v.leCount, g, q, v), q, v)
  {
    hide Target, RoundedToGroup, Group, ExtendStriping, Classified;
  }

  lemma ExtensionRounded(q: Request, v: Volume, target: U32, g: U32)
    requires g > 0 && target > v.leCount
    ensures var added := target - v.leCount;
      RoundedToGroup(target, added, g, q, v) ==
      if RoundsUp(q, v, added, g) then Wrap32(v.leCount + UpTo(added, g)) else v.leCount + DownTo(added, g)
  {
    hide Wrap32, RoundedToGroup, IsMultiple, UpTo, DownTo;
    RoundedToGroupIs(target, target - v.leCount, g, q, v);
    DownToIs(target - v.leCount, g);
  }

  /** Past 32 bits no growth is left that is a multiple of the group. */
  lemma WrappedIsNoMultiple(added: nat, g: int)
    requires 0 < g && added <= UINT32_MAX && UpTo(added, g) > TWO_32
    ensures !IsMultiple(UpTo(added, g) - TWO_32, g)
  {
    hide UpTo, IsMultiple;
    UpToIs(added, g);
    var up := UpTo(added, g);
    if IsMultiple(up - TWO_32, g) {
      SumIsMultiple(up, up - TWO_32, g);
      assert up - (up - TWO_32) == TWO_32;
      UpToLeast(added, g, TWO_32);
    }
  }

  ghost predicate GrowsByGroups(q: Request, v: Volume, g: U32)
    requires v.extentSize > 0 && g > 0
  {
    var r := Planned(q, v);
    r.Sized? && r.mode == Extend && r.extents > v.leCount && IsMultiple(r.extents - v.leCount, g)
  }

  /**
  A striped extension grows the volume by whole stripe groups if and only if the next boundary can
  be counted in 32 bits or, where a percentage is rounded down, there is a whole group to add.
  */
  lemma ExtendGrowsByGroupsIff(q: Request, v: Volume, target: U32, g: U32)
    requires v.extentSize > 0 && StripedExtension(q, v, target, g)
    ensures var added := target - v.leCount;
      GrowsByGroups(q, v, g) <==>
      if RoundsUp(q, v, added, g) then v.leCount + UpTo(added, g) <= UINT32_MAX else added >= g
  {
    hide Target, Planned, Group, ExtendStriping, RoundedToGroup, Wrap32, UpTo, DownTo, IsMultiple, RoundsUp;
    var added := target - v.leCount;
    ExtensionPlanned(q, v, target, g);
    ExtensionRounded(q, v, target, g);
    GrowthDown(added, g);
    GrowthUp(v.leCount, added, g);
  }

  lemma GrowthUp(le: U32, added: nat, g: U32)
    requires g > 0 && le + added <= UINT32_MAX
    ensures var n := Wrap32(le + UpTo(added, g));
      added > 0 ==> (n > le && IsMultiple(n - le, g) <==> le + UpTo(added, g) <= UINT32_MAX)
  {
    hide Wrap32, UpTo, IsMultiple;
    UpToIs(added, g);
    WrapOnce(le + UpTo(added, g));
    if UpTo(added, g) > TWO_32 { WrappedIsNoMultiple(added, g); }
  }

  lemma GrowthDown(added: nat, g: U32)
    requires g > 0
    ensures 0 <= DownTo(added, g) <= added && IsMultiple(DownTo(added, g), g) && (DownTo(added, g) > 0 <==> added >= g)
  {
    hide DownTo, IsMultiple;
    DownToIs(added, g);
    GroupIsMultiple(g);
    DownToMost(added, g, 0);
    if added >= g { DownToMost(added, g, g); }
    if DownTo(added, g) > 0 { MultiplesApart(0, DownTo(added, g), g); }
  }

  /** An extension that wraps around is planned as a reduction to next to nothing. */
  lemma WrappedExtensionShrinks(q: Request, v: Volume, target: U32, g: U32)
    requires v.extentSize > 0 && StripedExtension(q, v, target, g) && q.mode == Any
    requires var added := target - v.leCount;
      RoundsUp(q, v, added, g) && UpTo(added, g) <= UINT32_MAX < v.leCount + UpTo(added, g)
    ensures Planned(q, v) == Sized(v.leCount + UpTo(target - v.leCount, g) - TWO_32, Reduce)
  {
    hide Target, Planned, Group, ExtendStriping, RoundedToGroup, Wrap32, UpTo, DownTo, IsMultiple, RoundsUp;
    ExtensionPlanned(q, v, target, g);
    ExtensionRounded(q, v, target, g);
    WrapOnce(v.leCount + UpTo(target - v.leCount, g));
  }

  /** For one: sixteen extents short of the limit, eight more in two stripes of eight extents. */
  lemma ExtendedToNothing(q: Request, v: Volume)
    requires v.leCount == 0xFFFF_FFF0 && v.extentSize == 1 && v.minStripeSize <= 8
    requires q == Request(0, 0xFFFF_FFF8, NoSign, NoPercent, 2, 8, Any, false, false)
    ensures Planned(q, v) == Sized(0, Reduce)
  {
    assert Group(Striping(2, 8), 1) == 16;
    assert Target(q, v) == Some(0xFFFF_FFF8);
    assert StripedExtension(q, v, 0xFFFF_FFF8, 16);
    WrappedExtensionShrinks(q, v, 0xFFFF_FFF8, 16);
  }

  /** Growing by at most the whole of the free extents never asks for more than there are. */
  lemma FreePercentFits(q: Request, v: Volume)
    requires v.extentSize > 0 && q.percent == PercentFree && q.sign == Plus && q.size == 0 && q.extents <= 100
    ensures Planned(q, v).Sized? ==> Planned(q, v).extents <= v.leCount + v.freeCount
  {
    hide Target, Planned, RoundedToGroup, Group, ExtendStriping;
    FreeTarget(q, v);
    if Planned(q, v).Sized? {
      var t := PlannedIsGrown(q, v);
      var s := ExtendStriping(q, v);
      if t > v.leCount && s.value.stripes > 1 {
        FreeCheckHolds(q, v, t, Group(s.value, v.extentSize));
      }
    }
  }

  lemma FreeTarget(q: Request, v: Volume)
    requires v.extentSize > 0 && q.percent == PercentFree && q.sign == Plus && q.size == 0 && q.extents <= 100
    ensures Target(q, v).Some? ==> v.leCount <= Target(q, v).value <= v.leCount + v.freeCount
  {
    hide PercentOf;
    PercentOfPart(q.extents, v.freeCount, true);
  }

  /** What a plan that does not reduce comes out at. */
  lemma PlannedIsGrown(q: Request, v: Volume) returns (t: U32)
    requires v.extentSize > 0 && Planned(q, v).Sized? && (Target(q, v).Some? ==> Target(q, v).value >= v.leCount)
    ensures Target(q, v) == Some(t) && v.leCount <= t
    ensures t > v.leCount ==> ExtendStriping(q, v).Some?
    ensures var s := ExtendStriping(q, v);
      t > v.leCount && s.value.stripes > 1 ==>
        var g := Group(s.value, v.extentSize);
        g > 0 && Planned(q, v).extents == RoundedToGroup(t, t - v.leCount, g, q, v)
    ensures t == v.leCount || ExtendStriping(q, v).value.stripes <= 1 ==> Planned(q, v).extents == t
  {
    hide Target, RoundedToGroup, Group, ExtendStriping;
    t := Target(q, v).value;
    if t == v.leCount { RestIsNone(EffectiveRequest(q, v, t), v); }
  }

  lemma FreeCheckHolds(q: Request, v: Volume, target: U32, g: U32)
    requires g > 0 && q.percent != NoPercent && v.leCount < target <= v.leCount + v.freeCount
    ensures RoundedToGroup(target, target - v.leCount, g, q, v) <= v.leCount + v.freeCount
  {
    hide Wrap32, RoundedToGroup, IsMultiple, UpTo, DownTo;
    var added := target - v.leCount;
    ExtensionRounded(q, v, target, g);
    DownToIs(added, g);
    UpToIs(added, g);
    WrapLeast(UpTo(added, g), v.leCount);
  }

  /** A size that does not change is not rounded. */
  lemma RestIsNone(q: Request, v: Volume)
    ensures forall g: U32 :: g > 0 ==> RoundedToGroup(v.leCount, 0, g, q, v) == v.leCount
  {
  }

  // ----- the computation, step by step -----

  class Resizer {
    const v: Volume
    const percent: Percent
    const sign: Sign
    const resizefs: bool
    const usePolicy: bool
    var size: U64
    var extents: U32
    var stripes: U32
    var stripeSize: U32
    var mode: Mode

    constructor (q: Request, v: Volume)
      ensures Parameters() == q && this.v == v
    {
      this.v, percent, sign, resizefs, usePolicy := v, q.percent, q.sign, q.resizefs, q.usePolicy;
      size, extents, stripes, stripeSize, mode := q.size, q.extents, q.stripes, q.stripeSize, q.mode;
    }

    /** The parameters as they stand. */
    ghost function Parameters(): Request
      reads this
    {
      Request(size, extents, sign, percent, stripes, stripeSize, mode, resizefs, usePolicy)
    }

    /** Extents from a size or a percentage. */
    method AskExtents() returns (ok: bool)
      requires v.extentSize > 0
      modifies `size, `extents
      ensures (if ok then Some(extents) else None) == Asked(old(Parameters()), v)
    {
      if size != 0 {
        if size % v.extentSize != 0 {
          if sign == Minus {
            size := size - size % v.extentSize;
          } else {
            size := Wrap64(size + (v.extentSize - size % v.extentSize));
          }
        }
        extents := Wrap32(size / v.extentSize);
      }
      match percent {
        case PercentVg => extents := PercentOf(extents, v.extentCount, sign != Minus);
        case PercentFree => extents := PercentOf(extents, v.freeCount, sign != Minus);
        case PercentLv => extents := PercentOf(extents, v.leCount, sign != Minus);
        case PercentPvs =>
          if v.pvsGiven {
            extents := PercentOf(extents, v.pvsFree, sign != Minus);
          } else {
            extents := PercentOf(extents, v.extentCount, sign != Minus);
          }
        case PercentOrigin =>
          if v.originLeCount.None? {
            return false;
          }
          extents := PercentOf(extents, v.originLeCount.value, sign != Minus);
        case NoPercent =>
      }
      return true;
    }

    /** The sign and the limits. */
    method FindTarget() returns (ok: bool)
      requires v.extentSize > 0
      modifies `size, `extents
      ensures (if ok then Some(extents) else None) == Target(old(Parameters()), v)
    {
      hide Asked;
      ok := AskExtents();
      if !ok {
        return;
      }
      if sign == Plus {
        if extents >= MAX_EXTENT_COUNT - v.leCount {
          return false;
        }
        extents := extents + v.leCount;
      }
      if sign == Minus {
        if extents >= v.leCount {
          return false;
        }
        extents := v.leCount - extents;
      }
      return extents != 0;
    }

    /** The stripes of the last striped segment, when extending. */
    method FindStripes() returns (ok: bool)
      modifies `stripes, `stripeSize
      ensures (if ok then Some(Striping(stripes, stripeSize)) else None) == ExtendStriping(old(Parameters()), v)
    {
      if stripes == 1 || (stripes > 1 && stripeSize != 0) {
        return true;
      }
      var segStripes, segStripeSize := 0, 0;
      ghost var q := Parameters();
      assert v.dataSegments[0..] == v.dataSegments;
      for i := 0 to |v.dataSegments|
        invariant LastStriping(v.dataSegments[i..], q, Striping(segStripes, segStripeSize))
               == LastStriping(v.dataSegments, q, Striping(0, 0))
      {
        var seg := v.dataSegments[i];
        assert v.dataSegments[i..][1..] == v.dataSegments[i+1..];
        if seg.striped {
          if (segStripeSize != 0 && segStripeSize != seg.stripeSize && seg.stripeSize != 0 && stripeSize == 0)
            || (segStripes != 0 && segStripes != seg.stripes && stripes == 0)
          {
            return false;
          }
          segStripeSize := seg.stripeSize;
          segStripes := seg.stripes;
        }
      }
      if stripes == 0 {
        stripes := segStripes;
      }
      if stripeSize == 0 && stripes > 1 {
        if segStripeSize != 0 {
          stripeSize := segStripeSize;
        } else {
          stripeSize := v.defaultStripeSize;
        }
      }
      return true;
    }

    /** The segment that holds the new end, when reducing. */
    method FindSegment() returns (segSize: U32)
      modifies `stripes, `stripeSize
      ensures var p := PlaceOf(v.segments, extents, 0, NO_SEGMENT);
        StripingOf(p.segment) == Striping(stripes, stripeSize) && segSize == Wrap32(extents - p.used)
    {
      var used: U32 := 0;
      var seg := NO_SEGMENT;
      assert v.segments[0..] == v.segments;
      for i := 0 to |v.segments|
        invariant PlaceOf(v.segments[i..], extents, used, seg) == PlaceOf(v.segments, extents, 0, NO_SEGMENT)
      {
        assert v.segments[i..][1..] == v.segments[i+1..];
        seg := v.segments[i];
        if extents <= Wrap32(used + seg.len) {
          stripes, stripeSize := seg.stripes, seg.stripeSize;
          return Wrap32(extents - used);
        }
        used := Wrap32(used + seg.len);
      }
      stripes, stripeSize := seg.stripes, seg.stripeSize;
      return Wrap32(extents - used);
    }

    method FindBasis() returns (ok: bool, segSize: U32)
      modifies `stripes, `stripeSize
      ensures (if ok then Some((Striping(stripes, stripeSize), segSize)) else None) ==
              Basis(old(Parameters()), v, extents)
    {
      hide ExtendStriping, PlaceOf;
      segSize := Wrap32(extents - v.leCount);
      ok := true;
      if extents > v.leCount {
        ok := FindStripes();
        if !ok {
          return;
        }
      }
      if extents < v.leCount {
        segSize := FindSegment();
      }
    }

    /** The extents in a stripe group: at least one extent to a stripe. */
    method GroupExtents() returns (group: U32)
      requires v.extentSize > 0
      ensures group == Group(Striping(stripes, stripeSize), v.extentSize)
    {
      var stripeExtents := stripeSize / v.extentSize;
      if stripeExtents == 0 {
        stripeExtents := 1;
      }
      group := Wrap32(stripes * stripeExtents);
    }

    /** Rounding to stripe groups. */
    method RoundToGroup(segSize: U32, ghost q: Request) returns (ok: bool)
      requires v.extentSize > 0 && stripes > 1 && q.percent == percent
      modifies `extents
      ensures ok <==> Group(Striping(stripes, stripeSize), v.extentSize) > 0
      ensures ok ==>
        extents == RoundedToGroup(old(extents), segSize, Group(Striping(stripes, stripeSize), v.extentSize), q, v)
    {
      hide Group, Wrap32;
      var group := GroupExtents();
      if group == 0 {
        return false;
      }
      var rest := segSize % group;
      if rest != 0 && (extents < v.leCount || percent == NoPercent
                       || v.freeCount >= Wrap32(extents - v.leCount - rest + group)) {
        extents := Wrap32(extents - rest + group);
      } else if rest != 0 {
        extents := Wrap32(extents - rest);
      }
      return true;
    }

    /** Extension or reduction, and whether the command allows it. */
    method Classify(ghost q: Request) returns (r: Plan)
      requires q.mode == mode && q.usePolicy == usePolicy && q.resizefs == resizefs
      modifies `mode
      ensures r == Classified(extents, q, v)
      ensures r.Sized? ==> r == Sized(extents, mode)
    {
      if extents < v.leCount {
        if mode == Extend {
          return Invalid;
        }
        mode := Reduce;
      } else if extents > v.leCount {
        if mode == Reduce {
          return Invalid;
        }
        mode := Extend;
      } else {
        if usePolicy {
          return NothingToDo;
        }
        if !resizefs {
          return Invalid;
        }
        mode := Extend;
      }
      return Sized(extents, mode);
    }

    /** The size computation of `_lvresize`. */
    method Run() returns (r: Plan)
      requires v.extentSize > 0
      modifies this
      ensures r == Planned(old(Parameters()), v)
      ensures r.Sized? ==> r == Sized(extents, mode)
    {
      hide Target, Basis, RoundedToGroup, Group, Classified;
      ghost var q := Parameters();
      var ok := FindTarget();
      if !ok {
        return Invalid;
      }
      if extents == v.leCount {
        if usePolicy {
          return NothingToDo;
        }
        if !resizefs {
          return Invalid;
        }
        mode := Extend;
      }
      ghost var target := extents;
      ghost var q' := EffectiveRequest(q, v, target);
      BasisIgnoresExtents(q', Parameters(), v, target);
      var segSize;
      ok, segSize := FindBasis();
      if !ok {
        return Invalid;
      }
      if stripes > 1 && stripeSize == 0 {
        return Invalid;
      }
      if stripes > 1 {
        if stripeSize < v.minStripeSize {
          return Invalid;
        }
        ok := RoundToGroup(segSize, q');
        if !ok {
          return DividesByZero;
        }
      }
      r := Classify(q');
    }
  }

  lemma {:induction false} StripingIgnoresExtents(segments: seq<Segment>, q: Request, p: Request, seen: Striping)
    requires q.stripes == p.stripes && q.stripeSize == p.stripeSize
    ensures LastStriping(segments, q, seen) == LastStriping(segments, p, seen)
    decreases |segments|
  {
    if segments != [] {
      StripingIgnoresExtents(segments[1..], q, p, seen);
      StripingIgnoresExtents(segments[1..], q, p, Striping(segments[0].stripes, segments[0].stripeSize));
    }
  }

  lemma BasisIgnoresExtents(q: Request, p: Request, v: Volume, target: U32)
    requires q.stripes == p.stripes && q.stripeSize == p.stripeSize
    ensures Basis(q, v, target) == Basis(p, v, target)
  {
    StripingIgnoresExtents(v.dataSegments, q, p, Striping(0, 0));
  }
}
