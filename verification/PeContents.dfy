/**
What the list of `create_pv_list` holds: exactly the extents that were asked for, on the volumes
that can be used.
*/
module PeContents {
  import opened Words
  import opened PeRanges

  /** A volume that takes part: any, or only one with room that is there to allocate from. */
  predicate Usable(pv: Pv, allocatableOnly: bool) {
    allocatableOnly ==> pv.allocatable && !pv.missing && pv.peCount != pv.peAllocCount
  }

  ghost predicate HeldBy(rs: seq<Range>, x: int) {
    exists k :: 0 <= k < |rs| && rs[k].start <= x < rs[k].start + rs[k].count
  }

  /** The list has extent `x` of a device. */
  ghost predicate Lists(r: seq<Entry>, dev: Device, x: int) {
    exists i :: 0 <= i < |r| && r[i].pv.dev == dev && HeldBy(r[i].ranges, x)
  }

  /** A request for extent `x` of a device, on a volume that can be used. */
  ghost predicate AsksFor(q: Request, allocatableOnly: bool, dev: Device, x: int) {
    && Usable(q.pv, allocatableOnly) && q.pv.dev == dev
    && match q.colon
       case None => 0 <= x < q.pv.peCount
       case Some(s) => Ranges(s, q.pv.peCount).Some? && HeldBy(Ranges(s, q.pv.peCount).value, x)
  }

  lemma HeldByConcat(a: seq<Range>, b: seq<Range>, x: int)
    ensures HeldBy(a + b, x) <==> HeldBy(a, x) || HeldBy(b, x)
  {
    var all := a + b;
    assert forall k :: 0 <= k < |a| ==> all[k] == a[k];
    assert forall k :: 0 <= k < |b| ==> all[|a| + k] == b[k];
    if HeldBy(all, x) {
      var k :| 0 <= k < |all| && all[k].start <= x < all[k].start + all[k].count;
      assert k >= |a| ==> all[k] == b[k - |a|];
    }
  }

  lemma ListsOneMore(r: seq<Entry>, pv: Pv, rs: seq<Range>, dev: Device, x: int)
    ensures Lists(WithRanges(r, pv, rs), dev, x) <==> Lists(r, dev, x) || (pv.dev == dev && HeldBy(rs, x))
  {
    hide HeldBy;
    var i, after := IndexOf(r, pv.dev), WithRanges(r, pv, rs);
    if i < |r| {
      HeldByConcat(r[i].ranges, rs, x);
      assert after[i].ranges == r[i].ranges + rs && after[i].pv == r[i].pv;
      assert forall j :: 0 <= j < |r| && j != i ==> after[j] == r[j];
    } else {
      assert after[|r|] == Entry(pv, rs);
      assert forall j :: 0 <= j < |r| ==> after[j] == r[j];
    }
  }

  lemma WholeIsHeld(size: nat, x: int)
    ensures HeldBy([Range(0, size)], x) <==> 0 <= x < size
  {
    assert [Range(0, size)][0] == Range(0, size);
  }

  /** One accepted request adds exactly the extents it asks for. */
  lemma AddLists(r: seq<Entry>, q: Request, allocatableOnly: bool, dev: Device, x: int)
    requires Add(r, q, allocatableOnly).Some?
    ensures Lists(Add(r, q, allocatableOnly).value, dev, x) <==>
            Lists(r, dev, x) || AsksFor(q, allocatableOnly, dev, x)
  {
    hide Lists, HeldBy, Ranges, Appendable;
    if !Skipped(q.pv, allocatableOnly) {
      ListsOneMore(r, q.pv, Wanted(q.colon, q.pv.peCount).value, dev, x);
      WholeIsHeld(q.pv.peCount, x);
    }
  }

  lemma {:induction false} AddAllLists(r: seq<Entry>, qs: seq<Request>, allocatableOnly: bool, dev: Device, x: int)
    requires AddAll(r, qs, allocatableOnly).Some?
    ensures Lists(AddAll(r, qs, allocatableOnly).value, dev, x) <==>
            Lists(r, dev, x) || exists i :: 0 <= i < |qs| && AsksFor(qs[i], allocatableOnly, dev, x)
    decreases |qs|
  {
    if qs != [] {
      hide Lists, Add, AsksFor;
      AddLists(r, qs[0], allocatableOnly, dev, x);
      AddAllLists(Add(r, qs[0], allocatableOnly).value, qs[1..], allocatableOnly, dev, x);
      assert forall i :: 0 < i < |qs| ==> qs[i] == qs[1..][i-1];
      if i :| 0 <= i < |qs[1..]| && AsksFor(qs[1..][i], allocatableOnly, dev, x) {
        assert AsksFor(qs[i+1], allocatableOnly, dev, x);
      }
    }
  }

  /** Some argument asks for extent `x` of a device. */
  ghost predicate SomeArgumentAsks(vg: Vg, args: seq<string>, allocatableOnly: bool, dev: Device, x: int) {
    exists a, q :: a in args && Requests(vg, a).Some? && q in Requests(vg, a).value
                   && AsksFor(q, allocatableOnly, dev, x)
  }

  /** The list holds an extent exactly if it did before or some argument asks for it. */
  lemma {:induction false} ListLists(vg: Vg, args: seq<string>, allocatableOnly: bool, r: seq<Entry>,
                                     dev: Device, x: int)
    requires ListOf(vg, args, allocatableOnly, r).Some?
    ensures Lists(ListOf(vg, args, allocatableOnly, r).value, dev, x) <==>
            Lists(r, dev, x) || SomeArgumentAsks(vg, args, allocatableOnly, dev, x)
    decreases |args|
  {
    if args != [] {
      hide Lists, AddAll, AsksFor, Requests;
      var qs := Requests(vg, args[0]).value;
      var next := AddAll(r, qs, allocatableOnly).value;
      AddAllLists(r, qs, allocatableOnly, dev, x);
      ListLists(vg, args[1..], allocatableOnly, next, dev, x);
      FirstOrLater(vg, args, allocatableOnly, dev, x);
    }
  }

  lemma FirstOrLater(vg: Vg, args: seq<string>, allocatableOnly: bool, dev: Device, x: int)
    requires args != [] && Requests(vg, args[0]).Some?
    ensures var qs := Requests(vg, args[0]).value;
      SomeArgumentAsks(vg, args, allocatableOnly, dev, x) <==>
      (exists i :: 0 <= i < |qs| && AsksFor(qs[i], allocatableOnly, dev, x))
      || SomeArgumentAsks(vg, args[1..], allocatableOnly, dev, x)
  {
    hide AsksFor, Requests;
    var qs := Requests(vg, args[0]).value;
    if a, q :| a in args && Requests(vg, a).Some? && q in Requests(vg, a).value && AsksFor(q, allocatableOnly, dev, x) {
      if a in args[1..] {
      } else {
        assert a == args[0];
        var i :| 0 <= i < |qs| && qs[i] == q;
      }
    }
    if i :| 0 <= i < |qs| && AsksFor(qs[i], allocatableOnly, dev, x) {
      assert args[0] in args && qs[i] in qs;
    }
    if a, q :| a in args[1..] && Requests(vg, a).Some? && q in Requests(vg, a).value
               && AsksFor(q, allocatableOnly, dev, x) {
      assert a in args;
    }
  }

  /** A tag asks for the whole of each volume that carries it, and of no other. */
  lemma {:induction false} TaggedIff(pvs: seq<Pv>, tag: string, q: Request)
    ensures q in Tagged(pvs, tag) <==> q.pv in pvs && tag in q.pv.tags && q.colon == None
  {
    if pvs != [] {
      TaggedIff(pvs[1..], tag, q);
      assert q.pv in pvs <==> q.pv == pvs[0] || q.pv in pvs[1..];
    }
  }

  // ----- when a request is accepted -----

  /** Two lists of ranges share no extent, and the second one none within itself. */
  ghost predicate Fresh(before: seq<Range>, rs: seq<Range>) {
    && (forall i, j :: 0 <= i < |before| && 0 <= j < |rs| ==> Apart(rs[j], before[i]))
    && (forall i, j :: 0 <= i < j < |rs| ==> Apart(rs[j], rs[i]))
  }

  lemma FreshIff(before: seq<Range>, rs: seq<Range>)
    requires AllInside(before, UINT32_MAX) && AllInside(rs, UINT32_MAX)
    ensures Appendable(before, rs) <==> Fresh(before, rs)
  {
    hide Clash, Apart;
    var all := before + rs;
    assert forall i :: 0 <= i < |before| ==> all[i] == before[i];
    assert forall j :: 0 <= j < |rs| ==> all[|before| + j] == rs[j];
    forall i, j | 0 <= i < |all| && 0 <= j < |all| ensures Clash(all[i], all[j]) <==> !Apart(all[i], all[j]) {
      ClashExact(all[i], all[j]);
    }
    if Appendable(before, rs) {
      forall i, j | 0 <= i < |before| && 0 <= j < |rs| ensures Apart(rs[j], before[i]) {
        assert !Clash(all[|before| + j], all[i]);
      }
      forall i, j | 0 <= i < j < |rs| ensures Apart(rs[j], rs[i]) {
        assert !Clash(all[|before| + j], all[|before| + i]);
      }
    }
    if Fresh(before, rs) {
      forall k, i | |before| <= k < |all| && 0 <= i < k ensures !Clash(all[k], all[i]) {
        if i < |before| {
          assert Apart(rs[k - |before|], before[i]);
        } else {
          assert Apart(rs[k - |before|], rs[i - |before|]);
        }
      }
    }
  }

  lemma RangesOfSound(r: seq<Entry>, dev: Device, pvs: seq<Pv>, allocatableOnly: bool)
    requires Sound(r, pvs) && HaveExtents(pvs, allocatableOnly)
    ensures AllInside(RangesOf(r, dev), UINT32_MAX)
  {
    var i := IndexOf(r, dev);
    if i < |r| {
      assert SoundEntry(r[i], pvs);
      forall k | 0 <= k < |r[i].ranges| ensures Inside(r[i].ranges[k], UINT32_MAX) {
        assert OnDevice(r[i].ranges[k], r[i].pv.dev, pvs);
      }
    }
  }

  lemma InsideWider(rs: seq<Range>, size: nat)
    requires AllInside(rs, size) && size <= UINT32_MAX
    ensures AllInside(rs, UINT32_MAX)
  {
  }

  /** A request on a usable volume is refused exactly if it is malformed or asks for an extent twice. */
  lemma AcceptedIff(r: seq<Entry>, q: Request, allocatableOnly: bool, pvs: seq<Pv>)
    requires Sound(r, pvs) && HaveExtents(pvs, allocatableOnly) && Over(q, pvs)
    ensures Add(r, q, allocatableOnly).Some? <==>
            (Usable(q.pv, allocatableOnly) ==>
               Wanted(q.colon, q.pv.peCount).Some?
               && Fresh(RangesOf(r, q.pv.dev), Wanted(q.colon, q.pv.peCount).value))
  {
    if !Skipped(q.pv, allocatableOnly) && Wanted(q.colon, q.pv.peCount).Some? {
      WantedInside(q.colon, q.pv.peCount);
      var rs := Wanted(q.colon, q.pv.peCount).value;
      InsideWider(rs, q.pv.peCount);
      RangesOfSound(r, q.pv.dev, pvs, allocatableOnly);
      hide Wanted, Sound, AllInside;
      FreshIff(RangesOf(r, q.pv.dev), rs);
    }
  }
}
