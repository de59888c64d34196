/**
What a request to lvresize asks for, in its own terms: extents, a size in sectors or a percentage,
to be added, taken away or reached; and what is planned for it when no stripes are involved.
*/
module ResizeRequests {
  import opened Words
  import opened Resize

  // ----- the amount -----

  /** The count that a percentage refers to. */
  function BaseCount(q: Request, v: Volume): Option<U32> {
    match q.percent
    case NoPercent => None
    case PercentVg => Some(v.extentCount)
    case PercentFree => Some(v.freeCount)
    case PercentLv => Some(v.leCount)
    case PercentPvs => Some(if v.pvsGiven then v.pvsFree else v.extentCount)
    case PercentOrigin => v.originLeCount
  }

  /** `c` whole units of `unit` are `amount`, rounded down when taking away and up otherwise. */
  ghost predicate Rounded(c: int, unit: int, amount: int, sign: Sign) {
    if sign == Minus then c * unit <= amount < (c + 1) * unit else (c - 1) * unit < amount <= c * unit
  }

  /** The request is about `c` extents. */
  ghost predicate Amounts(q: Request, v: Volume, c: nat) {
    if q.percent == NoPercent then
      if q.size == 0 then c == q.extents else Rounded(c, v.extentSize, q.size, q.sign)
    else
      q.size == 0 && BaseCount(q, v).Some? && Rounded(c, 100, q.extents * BaseCount(q, v).value, q.sign)
  }

  lemma WholeExtents(size: U64, extentSize: U32, sign: Sign, c: U32)
    requires extentSize > 0 && Rounded(c, extentSize, size, sign)
    ensures RoundedSize(size, extentSize, sign) == c * extentSize
  {
    hide RoundedSize;
    RoundedSizeIs(size, extentSize, sign);
    MultipleOf(c, extentSize);
    MulMonotone(c, extentSize, UINT32_MAX, UINT32_MAX);
    hide DownTo, UpTo, IsMultiple;
    var m := c * extentSize;
    assert IsMultiple(m, extentSize) by { IsMultipleIs(m, extentSize); }
    assert (c + 1) * extentSize == m + extentSize && (c - 1) * extentSize == m - extentSize;
    if sign == Minus {
      DownToIs(size, extentSize);
      DownToMost(size, extentSize, m);
      if m < DownTo(size, extentSize) { MultiplesApart(m, DownTo(size, extentSize), extentSize); }
    } else {
      UpToIs(size, extentSize);
      UpToLeast(size, extentSize, m);
      if UpTo(size, extentSize) < m { MultiplesApart(UpTo(size, extentSize), m, extentSize); }
    }
  }

  lemma IsMultipleIs(n: int, g: int)
    requires g > 0 && n % g == 0
    ensures IsMultiple(n, g)
  {
  }

  lemma ShareIs(percents: U32, count: U32, roundUp: bool, c: U32)
    requires if roundUp then 100 * (c - 1) < percents * count <= 100 * c
             else 100 * c <= percents * count < 100 * (c + 1)
    ensures PercentOf(percents, count, roundUp) == c
  {
  }

  /** That many extents are asked for. */
  lemma AmountIsAsked(q: Request, v: Volume, c: U32)
    requires v.extentSize > 0 && Amounts(q, v, c)
    ensures Asked(q, v) == Some(c)
  {
    hide RoundedSize, PercentOf;
    if q.percent == NoPercent {
      if q.size != 0 {
        WholeExtents(q.size, v.extentSize, q.sign, c);
        MultipleOf(c, v.extentSize);
      }
    } else {
      ShareIs(q.extents, BaseCount(q, v).value, q.sign != Minus, c);
    }
  }

  // ----- the new size -----

  /** What the volume would come to. */
  function NewSize(sign: Sign, leCount: int, c: int): int {
    match sign
    case NoSign => c
    case Plus => leCount + c
    case Minus => leCount - c
  }

  /** A size that the command goes on with. */
  predicate Possible(q: Request, v: Volume, c: nat) {
    0 < NewSize(q.sign, v.leCount, c) && (q.sign == Plus ==> v.leCount + c < UINT32_MAX)
  }

  lemma TargetIs(q: Request, v: Volume, c: U32)
    requires v.extentSize > 0 && Amounts(q, v, c)
    ensures Target(q, v) == if Possible(q, v, c) then Some(NewSize(q.sign, v.leCount, c)) else None
  {
    hide Asked, Amounts;
    AmountIsAsked(q, v, c);
  }

  /** A percentage of an origin needs an origin. */
  lemma NoOrigin(q: Request, v: Volume)
    requires v.extentSize > 0 && q.percent == PercentOrigin && v.originLeCount == None
    ensures Planned(q, v) == Invalid
  {
  }

  // ----- plans without stripes -----

  ghost predicate Unstriped(q: Request, v: Volume) {
    && (forall i :: 0 <= i < |v.segments| ==> v.segments[i].stripes <= 1)
    && (forall i :: 0 <= i < |v.dataSegments| ==> !v.dataSegments[i].striped)
    && q.stripes <= 1
  }

  lemma {:induction false} NoneStriped(segments: seq<Segment>, q: Request, seen: Striping)
    requires forall i :: 0 <= i < |segments| ==> !segments[i].striped
    ensures LastStriping(segments, q, seen) == Some(seen)
    decreases |segments|
  {
    if segments != [] { NoneStriped(segments[1..], q, seen); }
  }

  lemma {:induction false} PlaceIsUnstriped(segments: seq<Segment>, extents: U32, used: U32, seen: Segment)
    requires seen.stripes <= 1 && forall i :: 0 <= i < |segments| ==> segments[i].stripes <= 1
    ensures PlaceOf(segments, extents, used, seen).segment.stripes <= 1
    decreases |segments|
  {
    if segments != [] { PlaceIsUnstriped(segments[1..], extents, Wrap32(used + segments[0].len), segments[0]); }
  }

  lemma BasisUnstriped(q: Request, v: Volume, target: U32)
    requires Unstriped(q, v)
    ensures Basis(q, v, target).Some? && Basis(q, v, target).value.0.stripes <= 1
  {
    PlaceIsUnstriped(v.segments, target, 0, NO_SEGMENT);
    NoneStriped(v.dataSegments, q, Striping(0, 0));
  }

  /** Whether a plan for that many extents is accepted. */
  predicate Accepted(q: Request, v: Volume, extents: int) {
    if extents < v.leCount then q.mode != Extend
    else if extents > v.leCount then q.mode != Reduce
    else q.resizefs && !q.usePolicy
  }

  /**
  Without stripes the plan is exactly what was asked for: the amount taken away, added or reached,
  refused if there is no such size or the command does not allow the direction.
  */
  lemma PlannedExactly(q: Request, v: Volume, c: U32)
    requires v.extentSize > 0 && Unstriped(q, v) && Amounts(q, v, c)
    ensures var n := NewSize(q.sign, v.leCount, c);
      && (Planned(q, v).Sized? <==> Possible(q, v, c) && Accepted(q, v, n))
      && (Planned(q, v).Sized? ==> Planned(q, v) == Sized(n, if n < v.leCount then Reduce else Extend))
      && (Planned(q, v) == NothingToDo <==> Possible(q, v, c) && n == v.leCount && q.usePolicy)
  {
    TargetIs(q, v, c);
    hide Target, Amounts, Basis;
    if Possible(q, v, c) {
      var t := NewSize(q.sign, v.leCount, c);
      BasisUnstriped(EffectiveRequest(q, v, t), v, t);
    }
  }

  /** For one: ten extents less of a linear volume of a hundred. */
  lemma TenLess(q: Request, v: Volume)
    requires q == Request(0, 10, Minus, NoPercent, 0, 0, Any, false, false)
    requires v.leCount == 100 && v.extentSize > 0 && v.segments == [Segment(100, true, 1, 0)] && v.dataSegments == []
    ensures Planned(q, v) == Sized(90, Reduce)
  {
    PlannedExactly(q, v, 10);
  }

  // ----- the stripe group -----

  /** A group is one stripe on each device, each of as many whole extents as fit, and at least one. */
  lemma GroupIs(s: Striping, extentSize: U32, w: nat)
    requires extentSize > 0 && s.stripes * w <= UINT32_MAX
    requires if s.stripeSize < extentSize then w == 1 else w * extentSize <= s.stripeSize < (w + 1) * extentSize
    ensures Group(s, extentSize) == s.stripes * w
  {
    if s.stripeSize < extentSize {
      DivModUnique(s.stripeSize, extentSize, 0, s.stripeSize);
    } else {
      assert (w + 1) * extentSize == w * extentSize + extentSize;
      DivModUnique(s.stripeSize, extentSize, w, s.stripeSize - w * extentSize);
      assert w != 0;
    }
  }

  /** Stripes that the request gives are used as given. */
  lemma GivenStripes(q: Request, v: Volume)
    requires q.stripes == 1 || (q.stripes > 1 && q.stripeSize > 0)
    ensures ExtendStriping(q, v) == Some(Striping(q.stripes, q.stripeSize))
  {
  }

  /** All striped segments have this striping, and there is one. */
  ghost predicate AllStripedAs(segments: seq<Segment>, s: Striping) {
    forall i :: 0 <= i < |segments| && segments[i].striped ==>
      segments[i].stripes == s.stripes && segments[i].stripeSize == s.stripeSize
  }

  lemma {:induction false} LastOfAlike(segments: seq<Segment>, q: Request, seen: Striping, s: Striping)
    requires AllStripedAs(segments, s) && (seen == Striping(0, 0) || seen == s)
    ensures LastStriping(segments, q, seen) ==
      Some(if exists i :: 0 <= i < |segments| && segments[i].striped then s else seen)
    decreases |segments|
  {
    if segments != [] {
      LastOfAlike(segments[1..], q, if segments[0].striped then s else seen, s);
      assert forall i :: 0 < i < |segments| ==> segments[i] == segments[1..][i-1];
      if segments[0].striped { assert exists i :: 0 <= i < |segments| && segments[i].striped; }
      if i :| 0 <= i < |segments[1..]| && segments[1..][i].striped { assert segments[i+1].striped; }
    }
  }

  /** Otherwise an extension goes on with the striping that the volume has. */
  lemma StripesGoOn(q: Request, v: Volume, s: Striping, i: nat)
    requires q.stripes == 0 && q.stripeSize == 0 && s.stripeSize > 0 && s.stripes > 1
    requires AllStripedAs(v.dataSegments, s) && i < |v.dataSegments| && v.dataSegments[i].striped
    ensures ExtendStriping(q, v) == Some(s)
  {
    LastOfAlike(v.dataSegments, q, Striping(0, 0), s);
  }

  /** The stripings of the striped segments, in order. */
  function Stripings(segments: seq<Segment>): (ss: seq<Striping>) {
    if segments == [] then []
    else (if segments[0].striped then [StripingOf(segments[0])] else []) + Stripings(segments[1..])
  }

  /** Two stripings that follow each other differ in something that the request leaves open. */
  predicate Differ(a: Striping, b: Striping, q: Request) {
    || (q.stripes == 0 && a.stripes > 0 && b.stripes != a.stripes)
    || (q.stripeSize == 0 && a.stripeSize > 0 && b.stripeSize > 0 && b.stripeSize != a.stripeSize)
  }

  ghost predicate SomeDiffer(ss: seq<Striping>, q: Request) {
    exists i :: 0 <= i < |ss| - 1 && Differ(ss[i], ss[i+1], q)
  }

  lemma FirstOrLaterDiffer(a: Striping, ss: seq<Striping>, q: Request)
    ensures SomeDiffer([a] + ss, q) <==> (ss != [] && Differ(a, ss[0], q)) || SomeDiffer(ss, q)
  {
    hide Differ;
    var all := [a] + ss;
    if ss != [] && Differ(a, ss[0], q) {
      assert Differ(all[0], all[1], q);
    }
    if i :| 0 <= i < |ss| - 1 && Differ(ss[i], ss[i+1], q) {
      assert Differ(all[i+1], all[i+1+1], q);
    }
    if i :| 0 <= i < |all| - 1 && Differ(all[i], all[i+1], q) {
      assert i > 0 ==> Differ(ss[i-1], ss[i-1+1], q);
    }
  }

  lemma {:induction false} LastStripingIs(segments: seq<Segment>, q: Request, seen: Striping)
    ensures var all := [seen] + Stripings(segments);
      LastStriping(segments, q, seen) == if SomeDiffer(all, q) then None else Some(all[|all| - 1])
    decreases |segments|
  {
    hide SomeDiffer;
    if segments == [] {
      FirstOrLaterDiffer(seen, [], q);
      NoneDiffer(q);
    } else {
      var first, more := segments[0], Stripings(segments[1..]);
      if first.striped {
        var now := StripingOf(first);
        LastStripingIs(segments[1..], q, now);
        FirstOrLaterDiffer(seen, [now] + more, q);
      } else {
        LastStripingIs(segments[1..], q, seen);
        assert Stripings(segments) == more;
      }
    }
  }

  lemma NoneDiffer(q: Request)
    ensures !SomeDiffer([], q)
  {
  }

  /** An extension goes on with the last striping, and is refused exactly if two differ. */
  lemma StripingFound(q: Request, v: Volume)
    requires v.extentSize > 0 && Target(q, v).Some? && Target(q, v).value > v.leCount
    requires q.stripes != 1 && (q.stripes == 0 || q.stripeSize == 0)
    ensures var ss := Stripings(v.dataSegments);
      && LastStriping(v.dataSegments, q, Striping(0, 0)) ==
         (if SomeDiffer(ss, q) then None else Some(if ss == [] then Striping(0, 0) else ss[|ss| - 1]))
      && (SomeDiffer(ss, q) ==> Planned(q, v) == Invalid)
  {
    hide Target, SomeDiffer;
    FirstOrLaterDiffer(Striping(0, 0), Stripings(v.dataSegments), q);
    LastStripingIs(v.dataSegments, q, Striping(0, 0));
  }

  /** Stripes without a size are given that of the last striping, or else the default. */
  lemma StripeSizeGiven(q: Request, v: Volume)
    requires q.stripes > 1 && q.stripeSize == 0 && !SomeDiffer(Stripings(v.dataSegments), q)
    ensures var ss := Stripings(v.dataSegments);
      var size := if ss == [] then 0 else ss[|ss| - 1].stripeSize;
      ExtendStriping(q, v) == Some(Striping(q.stripes, if size > 0 then size else v.defaultStripeSize))
  {
    hide SomeDiffer;
    FirstOrLaterDiffer(Striping(0, 0), Stripings(v.dataSegments), q);
    LastStripingIs(v.dataSegments, q, Striping(0, 0));
  }

  /** A size that rounding brings back to what it was only goes on to a file system resize, and not by policy. */
  lemma RoundedBack(q: Request, v: Volume, t: U32, s: Striping, segSize: U32)
    requires v.extentSize > 0 && Target(q, v) == Some(t) && t != v.leCount && Basis(q, v, t) == Some((s, segSize))
    requires s.stripes > 1 && s.stripeSize > 0 && s.stripeSize >= v.minStripeSize && Group(s, v.extentSize) > 0
    requires RoundedToGroup(t, segSize, Group(s, v.extentSize), q, v) == v.leCount
    ensures Planned(q, v) ==
      if q.usePolicy then NothingToDo else if q.resizefs then Sized(v.leCount, Extend) else Invalid
  {
    hide Target, Basis, RoundedToGroup, Group;
  }

  /** Stripes smaller than the smallest allowed are refused. */
  lemma SmallStripesRefused(q: Request, v: Volume)
    requires v.extentSize > 0 && Target(q, v).Some? && Target(q, v).value > v.leCount
    requires ExtendStriping(q, v).Some? && ExtendStriping(q, v).value.stripes > 1
    requires ExtendStriping(q, v).value.stripeSize < v.minStripeSize
    ensures Planned(q, v) == Invalid
  {
    hide Target, ExtendStriping;
  }
}
