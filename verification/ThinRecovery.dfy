/**
Recovery from attempts cut short, for every list a node can hold.

Making a snapshot has no tolerated error, the transaction id need not be moved last, and it can
be on the list more than once.  A list survives attempts that are cut short exactly if each
snapshot before the id can be repeated (its own device is deleted before it, and its origin is
made before it or there to stay) and nothing after the id has any effect.
*/
module ThinRecovery {
  import opened ThinPool

  /** The kernel takes the message, or answers with an error that is tolerated. */
  predicate Accepts(d: set<DeviceId>, m: Message) {
    m.CreateSnap? ==> m.id !in d && m.origin in d
  }

  ghost predicate Succeeds(d: set<DeviceId>, ms: seq<Message>)
    requires Moves(ms)
    decreases |ms|
  {
    ms == [] || (Accepts(d, ms[0]) && Succeeds(Moved(d, ms[0]), ms[1..]))
  }

  lemma SentMoves(p: Pool, m: Message)
    requires !m.SetTransactionId?
    ensures Sent(p, m).0 <==> Accepts(p.devices, m)
    ensures Sent(p, m).0 ==> Sent(p, m).1 == p.(devices := Moved(p.devices, m))
  {
  }

  /** A list that succeeds gets as far as the cut. */
  lemma {:induction false} GoodPrefix(p: Pool, ms: seq<Message>, rest: seq<Message>, cut: nat)
    requires Moves(ms) && Succeeds(p.devices, ms)
    ensures cut < |ms| ==> SentAll(p, ms + rest, cut) == (false, p.(devices := Devices(p.devices, ms[..cut])))
    ensures cut >= |ms| ==>
            SentAll(p, ms + rest, cut) == SentAll(p.(devices := Devices(p.devices, ms)), rest, cut - |ms|)
    decreases |ms|
  {
    hide Sent;
    if ms == [] {
      assert ms + rest == rest;
    } else {
      assert (ms + rest)[1..] == ms[1..] + rest;
      SentMoves(p, ms[0]);
      GoodPrefix(Sent(p, ms[0]).1, ms[1..], rest, if cut == 0 then 0 else cut - 1);
      assert 0 < cut < |ms| ==> ms[..cut][1..] == ms[1..][..cut-1];
    }
  }

  lemma {:induction false} OnlyGoodSucceed(p: Pool, ms: seq<Message>, rest: seq<Message>, cut: nat)
    requires Moves(ms) && cut >= |ms| && SentAll(p, ms + rest, cut).0
    ensures Succeeds(p.devices, ms)
    decreases |ms|
  {
    hide Sent;
    if ms != [] {
      assert (ms + rest)[1..] == ms[1..] + rest;
      SentMoves(p, ms[0]);
      OnlyGoodSucceed(Sent(p, ms[0]).1, ms[1..], rest, cut - 1);
    }
  }

  /** Success, message by message. */
  lemma {:induction false} SucceedsAt(d: set<DeviceId>, ms: seq<Message>)
    requires Moves(ms)
    ensures Succeeds(d, ms) <==> forall i :: 0 <= i < |ms| ==> Accepts(Devices(d, ms[..i]), ms[i])
    decreases |ms|
  {
    if ms != [] {
      hide Accepts;
      var d1, rest := Moved(d, ms[0]), ms[1..];
      SucceedsAt(d1, rest);
      assert ms[..0] == [];
      forall i | 0 <= i < |rest| ensures Devices(d, ms[..i+1]) == Devices(d1, rest[..i]) && ms[i+1] == rest[i] {
        assert ms[..i+1][1..] == rest[..i];
      }
      if forall i :: 0 <= i < |rest| ==> Accepts(Devices(d1, rest[..i]), rest[i]) {
        forall i | 0 < i < |ms| ensures Accepts(Devices(d, ms[..i]), ms[i]) {
          assert Devices(d, ms[..i-1+1]) == Devices(d1, rest[..i-1]);
        }
      } else {
        var i :| 0 <= i < |rest| && !Accepts(Devices(d1, rest[..i]), rest[i]);
        assert !Accepts(Devices(d, ms[..i+1]), ms[i+1]);
      }
    }
  }

  // ----- repeatable lists -----

  ghost predicate NeverDeleted(ms: seq<Message>, id: DeviceId) {
    forall j :: 0 <= j < |ms| && ms[j].Delete? ==> ms[j].id != id
  }

  /** Snapshot `i` is accepted, and accepted again whatever part of the list has been sent before. */
  ghost predicate RepeatableAt(d: set<DeviceId>, body: seq<Message>, i: nat)
    requires Moves(body) && i < |body| && body[i].CreateSnap?
  {
    var o := body[i].origin;
    && Last(body[..i], body[i].id) == Deleted
    && (Last(body[..i], o) == Created || (Last(body[..i], o) == Untouched && o in d && NeverDeleted(body[i..], o)))
  }

  ghost predicate Repeatable(d: set<DeviceId>, body: seq<Message>)
    requires Moves(body)
  {
    forall i :: 0 <= i < |body| && body[i].CreateSnap? ==> RepeatableAt(d, body, i)
  }

  /** A pool that cut-short attempts may have left, starting from `d0`. */
  ghost predicate Alike(d0: set<DeviceId>, d: set<DeviceId>, body: seq<Message>)
    requires Moves(body)
  {
    && (forall id :: Last(body, id) == Untouched ==> (id in d <==> id in d0))
    && (forall id :: id in d0 && NeverDeleted(body, id) ==> id in d)
  }

  lemma {:induction false} NotDeletedLast(ms: seq<Message>, id: DeviceId)
    requires Moves(ms)
    ensures NeverDeleted(ms, id) ==> Last(ms, id) != Deleted
    ensures Last(ms, id) == Untouched ==> NeverDeleted(ms, id)
  {
    if ms != [] {
      NotDeletedLast(ms[1..], id);
      assert forall j :: 0 < j < |ms| ==> ms[j] == ms[1..][j-1];
    }
  }

  lemma NeverDeletedInParts(body: seq<Message>, i: nat, id: DeviceId)
    requires i <= |body|
    ensures NeverDeleted(body, id) <==> NeverDeleted(body[..i], id) && NeverDeleted(body[i..], id)
  {
    assert forall j :: i <= j < |body| ==> body[j] == body[i..][j-i];
  }

  lemma AcceptsAgain(d0: set<DeviceId>, d: set<DeviceId>, body: seq<Message>, i: nat)
    requires Moves(body) && i < |body| && Alike(d0, d, body)
    requires body[i].CreateSnap? ==> RepeatableAt(d0, body, i)
    ensures Accepts(Devices(d, body[..i]), body[i])
  {
    if body[i].CreateSnap? {
      var o := body[i].origin;
      DevicesByLast(d, body[..i], body[i].id);
      DevicesByLast(d, body[..i], o);
      NotDeletedLast(body[..i], o);
      NeverDeletedInParts(body, i, o);
    }
  }

  /** A repeatable list succeeds on every such pool, and leaves the same devices. */
  lemma SucceedsAgain(d0: set<DeviceId>, d: set<DeviceId>, body: seq<Message>)
    requires Moves(body) && Alike(d0, d, body) && Repeatable(d0, body)
    ensures Succeeds(d, body) && Devices(d, body) == Devices(d0, body)
  {
    SucceedsAt(d, body);
    forall i | 0 <= i < |body| ensures Accepts(Devices(d, body[..i]), body[i]) {
      AcceptsAgain(d0, d, body, i);
    }
    forall id ensures id in Devices(d, body) <==> id in Devices(d0, body) {
      DevicesByLast(d, body, id);
      DevicesByLast(d0, body, id);
    }
  }

  lemma StaysAlike(d0: set<DeviceId>, d: set<DeviceId>, body: seq<Message>, cut: nat)
    requires Moves(body) && Alike(d0, d, body) && cut <= |body|
    ensures Alike(d0, Devices(d, body[..cut]), body)
  {
    var d1 := Devices(d, body[..cut]);
    forall id ensures Last(body, id) == Untouched ==> (id in d1 <==> id in d0) {
      DevicesByLast(d, body[..cut], id);
      LastOfPrefix(body, cut, id);
    }
    forall id | id in d0 && NeverDeleted(body, id) ensures id in d1 {
      DevicesByLast(d, body[..cut], id);
      NeverDeletedInParts(body, cut, id);
      NotDeletedLast(body[..cut], id);
    }
  }

  // ----- after the transaction id -----

  /** A message that changes nothing and is still taken. */
  predicate Idle(d: set<DeviceId>, m: Message) {
    (m.CreateThin? && m.id in d) || (m.Delete? && m.id !in d)
  }

  ghost predicate AllIdle(d: set<DeviceId>, ms: seq<Message>) {
    forall i :: 0 <= i < |ms| ==> Idle(d, ms[i])
  }

  lemma {:induction false} IdlePrefix(p: Pool, ms: seq<Message>, rest: seq<Message>, cut: nat)
    requires AllIdle(p.devices, ms)
    ensures SentAll(p, ms + rest, cut) == if cut < |ms| then (false, p) else SentAll(p, rest, cut - |ms|)
    decreases |ms|
  {
    if ms == [] {
      assert ms + rest == rest;
    } else {
      assert (ms + rest)[1..] == ms[1..] + rest;
      IdlePrefix(p, ms[1..], rest, if cut == 0 then 0 else cut - 1);
    }
  }

  lemma IdleTail(p: Pool, ms: seq<Message>, cut: nat)
    requires AllIdle(p.devices, ms)
    ensures SentAll(p, ms, cut) == (cut >= |ms|, p)
  {
    hide AllIdle;
    IdlePrefix(p, ms, [], cut);
    assert ms + [] == ms;
  }

  /** Once the id is moved, a listed message that gets through without effect is idle. */
  lemma OnlyIdleStays(p: Pool, m: Message)
    requires Listed(m, p.transId) && Sent(p, m) == (true, p)
    ensures Idle(p.devices, m)
  {
    SuccPred(p.transId);
  }

  // ----- a whole list -----

  ghost predicate AllListed(ms: seq<Message>, t: U64) {
    forall i :: 0 <= i < |ms| ==> Listed(ms[i], t)
  }

  /** Where the transaction id is moved first, or the end of the list. */
  function SetAt(ms: seq<Message>): (h: nat)
    ensures h <= |ms| && Moves(ms[..h]) && (h < |ms| ==> ms[h].SetTransactionId?)
  {
    if ms == [] || ms[0].SetTransactionId? then 0
    else
      var h := SetAt(ms[1..]) + 1;
      assert forall i :: 0 < i < h ==> ms[..h][i] == ms[1..][..h-1][i-1];
      h
  }

  /** What the messages up to the transaction id leave. */
  function Settled(d: set<DeviceId>, ms: seq<Message>): set<DeviceId> {
    Devices(d, ms[..SetAt(ms)])
  }

  function Tail(ms: seq<Message>): seq<Message> {
    var h := SetAt(ms);
    if h < |ms| then ms[h+1..] else []
  }

  /** The condition: a list that can be taken up again on a pool with these devices. */
  ghost predicate Resumable(d: set<DeviceId>, ms: seq<Message>) {
    Repeatable(d, ms[..SetAt(ms)]) && AllIdle(Settled(d, ms), Tail(ms))
  }

  /** A full attempt gets through, and gives the same after any attempts that are cut short. */
  ghost predicate RecoversFrom(p: Pool, t: U64, ms: seq<Message>) {
    && Attempt(p, t, ms, |ms|).0
    && forall cuts: seq<nat> :: Attempt(Attempts(p, t, ms, cuts), t, ms, |ms|) == Attempt(p, t, ms, |ms|)
  }

  /** The pool after an attempt that gets past the last message before the id. */
  function Passed(d: set<DeviceId>, t: U64, ms: seq<Message>): Pool {
    Pool(Settled(d, ms), if SetAt(ms) < |ms| then t else Pred(t))
  }

  /** The list in its three parts. */
  lemma InParts(ms: seq<Message>, t: U64)
    requires AllListed(ms, t)
    ensures var h := SetAt(ms);
      && ms == ms[..h] + ms[h..]
      && (h < |ms| ==> ms[h] == SetTransactionId(Pred(t), t) && ms[h..][0] == ms[h] && ms[h..][1..] == Tail(ms))
      && AllListed(Tail(ms), t)
  {
    hide SetAt, Moves, AllListed;
    var h := SetAt(ms);
    Halves(ms, h);
    if h < |ms| {
      ListedAt(ms, t, h);
      ListedAfter(ms, t, h + 1);
    } else {
      ListedAfter(ms, t, h);
      assert ms[h..] == [];
    }
  }

  lemma Halves(ms: seq<Message>, h: nat)
    requires h <= |ms|
    ensures ms == ms[..h] + ms[h..] && (h < |ms| ==> ms[h..][0] == ms[h] && ms[h..][1..] == ms[h+1..])
  {
  }

  lemma ListedAfter(ms: seq<Message>, t: U64, h: nat)
    requires AllListed(ms, t) && h <= |ms|
    ensures AllListed(ms[h..], t)
  {
  }

  lemma ListedAt(ms: seq<Message>, t: U64, i: nat)
    requires AllListed(ms, t) && i < |ms|
    ensures Listed(ms[i], t)
  {
  }

  /** Whatever comes after it: an attempt that is cut before the id is moved. */
  lemma CutBefore(p: Pool, t: U64, ms: seq<Message>, cut: nat)
    requires AllListed(ms, t) && p.transId == Pred(t) && Succeeds(p.devices, ms[..SetAt(ms)])
    requires cut <= SetAt(ms)
    ensures Attempt(p, t, ms, cut) == (cut == |ms|, Pool(Devices(p.devices, ms[..cut]), Pred(t)))
  {
    hide Succeeds, Devices;
    SuccPred(t);
    InParts(ms, t);
    var h := SetAt(ms);
    GoodPrefix(p, ms[..h], ms[h..], cut);
    assert ms[..h][..cut] == ms[..cut];
  }

  /** An attempt that moves the id goes on from what is settled by then. */
  lemma CutAfter(p: Pool, t: U64, ms: seq<Message>, cut: nat)
    requires AllListed(ms, t) && p.transId == Pred(t) && Succeeds(p.devices, ms[..SetAt(ms)])
    requires SetAt(ms) < cut && SetAt(ms) < |ms|
    ensures Attempt(p, t, ms, cut) == SentAll(Passed(p.devices, t, ms), Tail(ms), cut - SetAt(ms) - 1)
  {
    hide Succeeds, Devices, Tail;
    SuccPred(t);
    InParts(ms, t);
    var h := SetAt(ms);
    GoodPrefix(p, ms[..h], ms[h..], cut);
    assert SentAll(p.(devices := Settled(p.devices, ms)), ms[h..], cut - h)
        == SentAll(Passed(p.devices, t, ms), ms[h..][1..], cut - h - 1);
  }

  /** An attempt at a list with nothing but idle messages after the id. */
  lemma GoodAttempt(p: Pool, t: U64, ms: seq<Message>, cut: nat)
    requires AllListed(ms, t) && p.transId == Pred(t) && Succeeds(p.devices, ms[..SetAt(ms)])
    requires AllIdle(Settled(p.devices, ms), Tail(ms))
    ensures Attempt(p, t, ms, cut) ==
      if cut < SetAt(ms) || (cut == SetAt(ms) < |ms|) then (false, Pool(Devices(p.devices, ms[..cut]), Pred(t)))
      else (cut >= |ms|, Passed(p.devices, t, ms))
  {
    hide Succeeds, Devices, Tail, Attempt, SetAt, SentAll, AllIdle, Moves, AllListed;
    var h := SetAt(ms);
    assert ms[..|ms|] == ms;
    if cut <= h {
      CutBefore(p, t, ms, cut);
    } else if h < |ms| {
      CutAfter(p, t, ms, cut);
      TailLength(ms);
      IdleTail(Passed(p.devices, t, ms), Tail(ms), cut - h - 1);
    } else {
      CutBefore(p, t, ms, h);
      LongCut(p, t, ms, cut);
    }
  }

  lemma TailLength(ms: seq<Message>)
    ensures SetAt(ms) < |ms| ==> |Tail(ms)| == |ms| - SetAt(ms) - 1
  {
  }

  lemma LongCut(p: Pool, t: U64, ms: seq<Message>, cut: nat)
    requires cut >= |ms|
    ensures Attempt(p, t, ms, cut) == Attempt(p, t, ms, |ms|)
  {
    SentByLongCut(p, ms, cut);
  }

  lemma {:induction false} SentByLongCut(p: Pool, ms: seq<Message>, cut: nat)
    requires cut >= |ms|
    ensures SentAll(p, ms, cut) == SentAll(p, ms, |ms|)
    decreases |ms|
  {
    if ms != [] {
      SentByLongCut(Sent(p, ms[0]).1, ms[1..], cut - 1);
    }
  }

  // ----- the condition is enough -----

  lemma {:induction false} AttemptsStayAlike(p: Pool, q: Pool, t: U64, ms: seq<Message>, cuts: seq<nat>)
    requires AllListed(ms, t) && Resumable(p.devices, ms)
    requires q.transId == Pred(t) && Alike(p.devices, q.devices, ms[..SetAt(ms)])
    ensures var r := Attempts(q, t, ms, cuts);
      || (r == Passed(p.devices, t, ms) && r.transId == t)
      || (r.transId == Pred(t) && Alike(p.devices, r.devices, ms[..SetAt(ms)]))
    decreases |cuts|
  {
    if cuts != [] {
      hide Attempt, Alike, Repeatable, Succeeds, Devices, Tail;
      SuccPred(t);
      var h, cut := SetAt(ms), cuts[0];
      SucceedsAgain(p.devices, q.devices, ms[..h]);
      GoodAttempt(q, t, ms, cut);
      if cut > h && h < |ms| {
        InSyncSendsNothing(Passed(p.devices, t, ms), t, ms, cuts[1..]);
      } else {
        var c := if cut <= h then cut else h;
        StaysAlike(p.devices, q.devices, ms[..h], c);
        assert ms[..h][..c] == ms[..c];
        AttemptsStayAlike(p, Attempt(q, t, ms, cut).1, t, ms, cuts[1..]);
      }
    }
  }

  lemma ResumableRecovers(p: Pool, t: U64, ms: seq<Message>)
    requires AllListed(ms, t) && p.transId == Pred(t) && Resumable(p.devices, ms)
    ensures RecoversFrom(p, t, ms)
  {
    hide Attempt, Repeatable, Succeeds, Devices, Tail;
    SuccPred(t);
    var h := SetAt(ms);
    SucceedsAgain(p.devices, p.devices, ms[..h]);
    GoodAttempt(p, t, ms, |ms|);
    forall cuts: seq<nat> ensures Attempt(Attempts(p, t, ms, cuts), t, ms, |ms|) == Attempt(p, t, ms, |ms|) {
      AttemptsStayAlike(p, p, t, ms, cuts);
      var r := Attempts(p, t, ms, cuts);
      if r.transId == Pred(t) {
        SucceedsAgain(p.devices, r.devices, ms[..h]);
        GoodAttempt(r, t, ms, |ms|);
      } else {
        InSync(r, t, ms, |ms|);
      }
    }
  }

  // ----- and needed -----

  lemma FullSucceeds(p: Pool, t: U64, ms: seq<Message>)
    requires AllListed(ms, t) && p.transId == Pred(t) && Attempt(p, t, ms, |ms|).0
    ensures Succeeds(p.devices, ms[..SetAt(ms)])
  {
    SuccPred(t);
    InParts(ms, t);
    OnlyGoodSucceed(p, ms[..SetAt(ms)], ms[SetAt(ms)..], |ms|);
  }

  lemma OneCut(p: Pool, t: U64, ms: seq<Message>, cut: nat)
    requires RecoversFrom(p, t, ms)
    ensures Attempt(Attempt(p, t, ms, cut).1, t, ms, |ms|) == Attempt(p, t, ms, |ms|) && Attempt(p, t, ms, |ms|).0
  {
    hide Attempt;
    var cuts := [cut];
    assert cuts[1..] == [];
    assert Attempts(p, t, ms, cuts) == Attempt(p, t, ms, cut).1;
  }

  /** After a cut anywhere before the id is moved the list must succeed again. */
  lemma MustSucceedAgain(p: Pool, t: U64, ms: seq<Message>, cut: nat)
    requires AllListed(ms, t) && p.transId == Pred(t) && RecoversFrom(p, t, ms) && cut <= SetAt(ms)
    ensures Succeeds(Devices(p.devices, ms[..cut]), ms[..SetAt(ms)])
  {
    hide RecoversFrom, Attempt, Succeeds;
    OneCut(p, t, ms, cut);
    FullSucceeds(p, t, ms);
    CutBefore(p, t, ms, cut);
    FullSucceeds(Pool(Devices(p.devices, ms[..cut]), Pred(t)), t, ms);
  }

  lemma LastAt(body: seq<Message>, j: nat)
    requires Moves(body) && j < |body|
    ensures Last(body[..j+1], body[j].id) == OpOf(body[j])
  {
    assert body[..j+1] == body[..j] + [body[j]];
    LastOfSnoc(body[..j], body[j]);
  }

  lemma OriginStays(p: Pool, t: U64, ms: seq<Message>, i: nat, j: nat)
    requires AllListed(ms, t) && p.transId == Pred(t) && RecoversFrom(p, t, ms) && i <= j < SetAt(ms)
    requires ms[i].CreateSnap? && Last(ms[..SetAt(ms)][..i], ms[i].origin) == Untouched && ms[j].Delete?
    ensures ms[j].id != ms[i].origin
  {
    hide RecoversFrom;
    var body := ms[..SetAt(ms)];
    MustSucceedAgain(p, t, ms, j + 1);
    assert ms[..j+1] == body[..j+1];
    var d1 := Devices(p.devices, body[..j+1]);
    SucceedsAt(d1, body);
    LastAt(body, j);
    DevicesByLast(p.devices, body[..j+1], body[j].id);
    DevicesByLast(d1, body[..i], body[i].origin);
  }

  lemma MustBeRepeatable(p: Pool, t: U64, ms: seq<Message>, i: nat)
    requires AllListed(ms, t) && p.transId == Pred(t) && RecoversFrom(p, t, ms)
    requires i < SetAt(ms) && ms[i].CreateSnap?
    ensures RepeatableAt(p.devices, ms[..SetAt(ms)], i)
  {
    hide RecoversFrom;
    var body := ms[..SetAt(ms)];
    var s, o := body[i].id, body[i].origin;
    MustSucceedAgain(p, t, ms, 0);
    MustSucceedAgain(p, t, ms, i + 1);
    assert ms[..0] == [] && ms[..i+1] == body[..i+1];
    var d1 := Devices(p.devices, body[..i+1]);
    SucceedsAt(p.devices, body);
    SucceedsAt(d1, body);
    LastAt(body, i);
    DevicesByLast(p.devices, body[..i+1], s);
    DevicesByLast(d1, body[..i], s);
    DevicesByLast(p.devices, body[..i], o);
    forall j | i <= j < |body| && body[j].Delete? && Last(body[..i], o) == Untouched ensures body[j].id != o {
      if body[j].id == o { OriginStays(p, t, ms, i, j); }
    }
    assert forall j :: 0 <= j < |body[i..]| ==> body[i..][j] == body[i+j];
  }

  /** Every part of what follows the id leaves what all of it leaves. */
  lemma SameAfterId(p: Pool, t: U64, ms: seq<Message>, k: nat)
    requires AllListed(ms, t) && p.transId == Pred(t) && RecoversFrom(p, t, ms) && SetAt(ms) < |ms|
    requires SentAll(Passed(p.devices, t, ms), Tail(ms), k).1.transId == t
    ensures SentAll(Passed(p.devices, t, ms), Tail(ms), k).1 ==
            SentAll(Passed(p.devices, t, ms), Tail(ms), |Tail(ms)|).1
    ensures SentAll(Passed(p.devices, t, ms), Tail(ms), |Tail(ms)|).0
  {
    hide RecoversFrom, Attempt, SentAll, Succeeds, Tail;
    var h := SetAt(ms);
    OneCut(p, t, ms, h + 1 + k);
    FullSucceeds(p, t, ms);
    TailLength(ms);
    CutAfter(p, t, ms, h + 1 + k);
    CutAfter(p, t, ms, |ms|);
    InSync(Attempt(p, t, ms, h + 1 + k).1, t, ms, |ms|);
  }

  lemma {:induction false} MustBeIdle(p: Pool, t: U64, ms: seq<Message>, j: nat)
    requires AllListed(ms, t) && p.transId == Pred(t) && RecoversFrom(p, t, ms) && SetAt(ms) < |ms|
    requires j <= |Tail(ms)|
    ensures AllIdle(Settled(p.devices, ms), Tail(ms)[..j])
  {
    hide RecoversFrom, Attempt, Sent, Idle, Tail, Settled, SetAt, SentAll, Moves, AllListed;
    if j > 0 {
      MustBeIdle(p, t, ms, j - 1);
      InParts(ms, t);
      var q, tail := Passed(p.devices, t, ms), Tail(ms);
      ListedAt(tail, t, j - 1);
      NextSent(q, tail, j - 1);
      SameAfterId(p, t, ms, j - 1);
      IdKept(q, tail[j-1], t);
      SameAfterId(p, t, ms, j);
      OnlyIdleStays(q, tail[j-1]);
      assert tail[..j] == tail[..j-1] + [tail[j-1]];
    }
  }

  /** The first message after idle ones. */
  lemma NextSent(p: Pool, ms: seq<Message>, i: nat)
    requires i < |ms| && AllIdle(p.devices, ms[..i])
    ensures SentAll(p, ms, i).1 == p
    ensures SentAll(p, ms, |ms|).0 ==> Sent(p, ms[i]).0 && SentAll(p, ms, i + 1).1 == Sent(p, ms[i]).1
  {
    hide AllIdle, Sent;
    var front, rest := ms[..i], ms[i..];
    assert ms == front + rest && rest[0] == ms[i];
    IdlePrefix(p, front, rest, i);
    IdlePrefix(p, front, rest, i + 1);
    IdlePrefix(p, front, rest, |ms|);
  }

  lemma IdKept(p: Pool, m: Message, t: U64)
    requires p.transId == t && Listed(m, t)
    ensures Sent(p, m).1.transId == t
  {
    SuccPred(t);
  }

  lemma MustBeResumable(p: Pool, t: U64, ms: seq<Message>)
    requires AllListed(ms, t) && p.transId == Pred(t) && RecoversFrom(p, t, ms)
    ensures Resumable(p.devices, ms)
  {
    hide RecoversFrom, RepeatableAt, Idle;
    var h := SetAt(ms);
    forall i | 0 <= i < h && ms[i].CreateSnap? ensures RepeatableAt(p.devices, ms[..h], i) {
      MustBeRepeatable(p, t, ms, i);
    }
    if h < |ms| {
      MustBeIdle(p, t, ms, |Tail(ms)|);
      assert Tail(ms)[..|Tail(ms)|] == Tail(ms);
    }
  }

  /**
  For every list a node can hold and every pool one step behind: a full attempt gets through and
  gives the same after any attempts cut short, if and only if the list is resumable there.
  */
  lemma RecoversFromIff(p: Pool, t: U64, ms: seq<Message>)
    requires AllListed(ms, t) && p.transId == Pred(t)
    ensures RecoversFrom(p, t, ms) <==> Resumable(p.devices, ms)
  {
    hide RecoversFrom, Resumable;
    if Resumable(p.devices, ms) { ResumableRecovers(p, t, ms); }
    if RecoversFrom(p, t, ms) { MustBeResumable(p, t, ms); }
  }

  // ----- whatever the pool -----

  /** Every snapshot deletes its own device and makes its origin first; what follows the id only repeats. */
  ghost predicate AlwaysResumable(ms: seq<Message>) {
    var body, tail := ms[..SetAt(ms)], Tail(ms);
    && (forall i :: 0 <= i < |body| && body[i].CreateSnap? ==>
          Last(body[..i], body[i].id) == Deleted && Last(body[..i], body[i].origin) == Created)
    && (forall j :: 0 <= j < |tail| ==>
          (tail[j].CreateThin? || tail[j].Delete?) && Last(body, tail[j].id) == OpOf(tail[j]))
  }

  /** Two pools are enough to tell: an empty one, and one with nothing but a device that is to be deleted. */
  lemma ResumableEverywhere(ms: seq<Message>)
    ensures (forall d :: Resumable(d, ms)) <==> AlwaysResumable(ms)
  {
    var body, tail := ms[..SetAt(ms)], Tail(ms);
    if AlwaysResumable(ms) {
      forall d ensures Resumable(d, ms) {
        forall j | 0 <= j < |tail| ensures Idle(Devices(d, body), tail[j]) { DevicesByLast(d, body, tail[j].id); }
      }
    }
    if forall d :: Resumable(d, ms) {
      assert Resumable({}, ms);
      forall i | 0 <= i < |body| && body[i].CreateSnap?
        ensures Last(body[..i], body[i].id) == Deleted && Last(body[..i], body[i].origin) == Created
      {
        assert RepeatableAt({}, body, i);
      }
      forall j | 0 <= j < |tail|
        ensures (tail[j].CreateThin? || tail[j].Delete?) && Last(body, tail[j].id) == OpOf(tail[j])
      {
        assert Idle(Settled({}, ms), tail[j]);
        var id := tail[j].id;
        assert Resumable({id}, ms) && Idle(Settled({id}, ms), tail[j]);
        DevicesByLast({}, body, id);
        DevicesByLast({id}, body, id);
      }
    }
  }

  /** Recovery on every pool, for every list a node can hold. */
  lemma RecoversIff(t: U64, ms: seq<Message>)
    requires AllListed(ms, t)
    ensures (forall p: Pool :: p.transId == Pred(t) ==> RecoversFrom(p, t, ms)) <==> AlwaysResumable(ms)
  {
    hide RecoversFrom, Resumable, AlwaysResumable;
    ResumableEverywhere(ms);
    forall p: Pool | p.transId == Pred(t) ensures RecoversFrom(p, t, ms) <==> Resumable(p.devices, ms) {
      RecoversFromIff(p, t, ms);
    }
    if forall p: Pool :: p.transId == Pred(t) ==> RecoversFrom(p, t, ms) {
      forall d ensures Resumable(d, ms) {
        var p := Pool(d, Pred(t));
        assert RecoversFrom(p, t, ms);
      }
    }
  }
}
