/**
Thin-pool messages and their transaction id (`_node_send_messages`,
`dm_tree_node_add_thin_pool_message`).

Activating a pool sends a list of messages whose last one moves the pool's transaction id.
An activation that is cut short can be repeated until it gets through, with the same outcome
as one uninterrupted run.
*/
module ThinPool {
  import Words

  const DM_THIN_MAX_DEVICE_ID := 0xFF_FFFF

  newtype U64 = x: int | 0 <= x < Words.TWO_64

  function Succ(t: U64): U64 {
    if t as int == Words.TWO_64 - 1 then 0 else t + 1
  }

  function Pred(t: U64): U64 {
    if t == 0 then (Words.TWO_64 - 1) as U64 else t - 1
  }

  lemma SuccPred(t: U64)
    ensures Succ(Pred(t)) == t && Pred(Succ(t)) == t && Pred(t) != t
  {
  }

  type DeviceId = nat

  datatype Message =
    | CreateThin(id: DeviceId)
    | CreateSnap(id: DeviceId, origin: DeviceId)
    | Delete(id: DeviceId)
    | SetTransactionId(current: U64, next: U64)

  /** The kernel's pool metadata. */
  datatype Pool = Pool(devices: set<DeviceId>, transId: U64)

  datatype Reply = Done(pool: Pool) | EExist | ENoData | EInval

  /** What the kernel does with a message. */
  function Answer(p: Pool, m: Message): Reply {
    match m
    case CreateThin(id) => if id in p.devices then EExist else Done(p.(devices := p.devices + {id}))
    case CreateSnap(id, origin) =>
      if id in p.devices then EExist
      else if origin !in p.devices then ENoData
      else Done(p.(devices := p.devices + {id}))
    case Delete(id) => if id !in p.devices then ENoData else Done(p.(devices := p.devices - {id}))
    case SetTransactionId(current, next) => if p.transId != current then EInval else Done(p.(transId := next))
  }

  /** The error a message may get without failing (`expected_errno`). */
  predicate Expected(m: Message, r: Reply) {
    (m.CreateThin? && r.EExist?) || (m.Delete? && r.ENoData?)
  }

  /** One message as the library sees it: whether it counts as sent, and the pool afterwards. */
  function Sent(p: Pool, m: Message): (bool, Pool) {
    var r := Answer(p, m);
    if r.Done? then (true, r.pool) else (Expected(m, r), p)
  }

  /** Messages in order until one fails, or until `cut` of them have got through and the attempt ends early. */
  function SentAll(p: Pool, ms: seq<Message>, cut: nat): (bool, Pool)
    decreases |ms|
  {
    if ms == [] then (true, p)
    else if cut == 0 then (false, p)
    else
      var (ok, q) := Sent(p, ms[0]);
      if ok then SentAll(q, ms[1..], cut - 1) else (false, p)
  }

  /** One activation of a pool whose recorded transaction id is `t`. */
  function Attempt(p: Pool, t: U64, ms: seq<Message>, cut: nat): (bool, Pool) {
    if p.transId == t then (true, p)
    else if p.transId != Pred(t) then (false, p)
    else SentAll(p, ms, cut)
  }

  /** Activations one after another, each cut short somewhere. */
  function Attempts(p: Pool, t: U64, ms: seq<Message>, cuts: seq<nat>): Pool
    decreases |cuts|
  {
    if cuts == [] then p else Attempts(Attempt(p, t, ms, cuts[0]).1, t, ms, cuts[1..])
  }

  // ----- creations and deletions -----

  /** Messages about devices, as opposed to the transaction id. */
  ghost predicate Moves(ms: seq<Message>) {
    forall i :: 0 <= i < |ms| ==> !ms[i].SetTransactionId?
  }

  ghost predicate Plain(ms: seq<Message>) {
    forall i :: 0 <= i < |ms| ==> ms[i].CreateThin? || ms[i].Delete?
  }

  function Moved(d: set<DeviceId>, m: Message): set<DeviceId>
    requires !m.SetTransactionId?
  {
    if m.Delete? then d - {m.id} else d + {m.id}
  }

  function Devices(d: set<DeviceId>, ms: seq<Message>): set<DeviceId>
    requires Moves(ms)
    decreases |ms|
  {
    if ms == [] then d else Devices(Moved(d, ms[0]), ms[1..])
  }

  datatype LastOp = Untouched | Created | Deleted

  function OpOf(m: Message): LastOp {
    if m.Delete? then Deleted else Created
  }

  /** The last thing a list does to a device. */
  function Last(ms: seq<Message>, id: DeviceId): LastOp
    requires Moves(ms)
  {
    if ms == [] then Untouched
    else if Last(ms[1..], id) != Untouched then Last(ms[1..], id)
    else if ms[0].id == id then OpOf(ms[0]) else Untouched
  }

  /** A list decides by itself about the devices it makes or deletes and leaves the others alone. */
  lemma {:induction false} DevicesByLast(d: set<DeviceId>, ms: seq<Message>, id: DeviceId)
    requires Moves(ms)
    ensures id in Devices(d, ms) <==> Last(ms, id) == Created || (Last(ms, id) == Untouched && id in d)
    decreases |ms|
  {
    if ms != [] {
      DevicesByLast(Moved(d, ms[0]), ms[1..], id);
    }
  }

  /** Plain messages cannot fail, so only the cut decides how far an attempt gets. */
  lemma {:induction false} PlainPrefix(p: Pool, ms: seq<Message>, rest: seq<Message>, cut: nat)
    requires Plain(ms)
    ensures cut < |ms| ==> SentAll(p, ms + rest, cut) == (false, p.(devices := Devices(p.devices, ms[..cut])))
    ensures cut >= |ms| ==>
            SentAll(p, ms + rest, cut) == SentAll(p.(devices := Devices(p.devices, ms)), rest, cut - |ms|)
    decreases |ms|
  {
    if ms == [] {
      assert ms + rest == rest;
    } else {
      assert (ms + rest)[1..] == ms[1..] + rest;
      PlainPrefix(Sent(p, ms[0]).1, ms[1..], rest, if cut == 0 then 0 else cut - 1);
      assert Sent(p, ms[0]).1.devices == Moved(p.devices, ms[0]);
      assert 0 < cut < |ms| ==> ms[..cut][1..] == ms[1..][..cut-1];
    }
  }

  lemma {:induction false} LastOfPrefix(ms: seq<Message>, cut: nat, id: DeviceId)
    requires Moves(ms) && cut <= |ms|
    ensures Last(ms[..cut], id) != Untouched ==> Last(ms, id) != Untouched
  {
    if 0 < cut {
      assert ms[..cut][1..] == ms[1..][..cut-1];
      LastOfPrefix(ms[1..], cut - 1, id);
    }
  }

  /** Running part of a plain list first makes no difference to running all of it. */
  lemma PartThenWhole(d: set<DeviceId>, ms: seq<Message>, cut: nat)
    requires Plain(ms) && cut <= |ms|
    ensures Devices(Devices(d, ms[..cut]), ms) == Devices(d, ms)
  {
    forall id ensures id in Devices(Devices(d, ms[..cut]), ms) <==> id in Devices(d, ms) {
      DevicesByLast(Devices(d, ms[..cut]), ms, id);
      DevicesByLast(d, ms[..cut], id);
      DevicesByLast(d, ms, id);
      LastOfPrefix(ms, cut, id);
    }
  }

  lemma {:induction false} LastOfSnoc(ms: seq<Message>, m: Message)
    requires Moves(ms) && !m.SetTransactionId?
    ensures Last(ms + [m], m.id) == OpOf(m)
  {
    if ms == [] {
      assert [] + [m] == [m] && [m][1..] == [];
    } else {
      assert (ms + [m])[1..] == ms[1..] + [m];
      LastOfSnoc(ms[1..], m);
    }
  }

  // ----- crash recovery -----

  /** What one uninterrupted run leaves. */
  function Outcome(p: Pool, t: U64, body: seq<Message>): Pool
    requires Plain(body)
  {
    Pool(Devices(p.devices, body), t)
  }

  function WithSet(body: seq<Message>, t: U64): seq<Message> {
    body + [SetTransactionId(Pred(t), t)]
  }

  lemma SetMovesId(p: Pool, t: U64, cut: nat)
    requires p.transId == Pred(t)
    ensures SentAll(p, [SetTransactionId(Pred(t), t)], cut) == if cut == 0 then (false, p) else (true, p.(transId := t))
  {
    assert [SetTransactionId(Pred(t), t)][1..] == [];
  }

  /** One attempt either finishes the job or leaves a pool from which the job still comes out the same. */
  lemma OneAttempt(p: Pool, t: U64, body: seq<Message>, cut: nat)
    requires Plain(body) && p.transId == Pred(t)
    ensures var (ok, q) := Attempt(p, t, WithSet(body, t), cut);
      && (ok <==> cut > |body|)
      && (ok ==> q == Outcome(p, t, body))
      && (!ok ==> q.transId == Pred(t) && Outcome(q, t, body) == Outcome(p, t, body))
  {
    SuccPred(t);
    PlainPrefix(p, body, [SetTransactionId(Pred(t), t)], cut);
    if cut >= |body| {
      SetMovesId(p.(devices := Devices(p.devices, body)), t, cut - |body|);
      PartThenWhole(p.devices, body, |body|);
      assert body[..|body|] == body;
    } else {
      PartThenWhole(p.devices, body, cut);
    }
  }

  /** A pool whose transaction id is up to date is sent nothing. */
  lemma {:induction false} InSyncSendsNothing(p: Pool, t: U64, ms: seq<Message>, cuts: seq<nat>)
    requires p.transId == t
    ensures Attempts(p, t, ms, cuts) == p
    decreases |cuts|
  {
    if cuts != [] {
      InSyncSendsNothing(p, t, ms, cuts[1..]);
    }
  }

  lemma {:induction false} AttemptsKeepOutcome(p: Pool, t: U64, body: seq<Message>, cuts: seq<nat>)
    requires Plain(body) && p.transId == Pred(t)
    ensures var q := Attempts(p, t, WithSet(body, t), cuts);
      q == Outcome(p, t, body) || (q.transId == Pred(t) && Outcome(q, t, body) == Outcome(p, t, body))
    decreases |cuts|
  {
    if cuts != [] {
      var ms := WithSet(body, t);
      OneAttempt(p, t, body, cuts[0]);
      var (ok, q) := Attempt(p, t, ms, cuts[0]);
      if ok {
        InSyncSendsNothing(q, t, ms, cuts[1..]);
      } else {
        AttemptsKeepOutcome(q, t, body, cuts[1..]);
      }
    }
  }

  /**
  Creations and deletions followed by the transaction id: any number of attempts cut short
  anywhere and then a full one succeed and leave what a single full one leaves, and whatever
  is activated later sends nothing.
  */
  lemma CrashRecovery(p: Pool, t: U64, body: seq<Message>, cuts: seq<nat>, full: nat, later: seq<nat>)
    requires Plain(body) && p.transId == Pred(t) && full > |body|
    ensures var ms := WithSet(body, t);
      && Attempt(p, t, ms, full) == (true, Outcome(p, t, body))
      && Attempt(Attempts(p, t, ms, cuts), t, ms, full) == (true, Outcome(p, t, body))
      && Attempts(Outcome(p, t, body), t, ms, later) == Outcome(p, t, body)
  {
    hide Attempt, Devices;
    SuccPred(t);
    var ms := WithSet(body, t);
    AttemptsKeepOutcome(p, t, body, cuts);
    OneAttempt(p, t, body, full);
    var q := Attempts(p, t, ms, cuts);
    if q.transId == Pred(t) {
      OneAttempt(q, t, body, full);
    } else {
      InSync(q, t, ms, full);
    }
    InSyncSendsNothing(Outcome(p, t, body), t, ms, later);
  }

  lemma InSync(p: Pool, t: U64, ms: seq<Message>, cut: nat)
    requires p.transId == t
    ensures Attempt(p, t, ms, cut) == (true, p)
  {
  }

  // ----- the tree node -----

  datatype MessageType = TypeCreateSnap | TypeCreateThin | TypeDelete | TypeSetTransactionId | Unsupported

  /** Passing an id as `uint32_t` keeps its low 32 bits. */
  function Low32(id: U64): nat {
    id as int % Words.TWO_32
  }

  predicate Acceptable(kind: MessageType, id1: U64, id2: U64, transactionId: U64) {
    match kind
    case TypeCreateSnap => id1 != id2 && Low32(id1) <= DM_THIN_MAX_DEVICE_ID && Low32(id2) <= DM_THIN_MAX_DEVICE_ID
    case TypeCreateThin => Low32(id1) <= DM_THIN_MAX_DEVICE_ID
    case TypeDelete => Low32(id1) <= DM_THIN_MAX_DEVICE_ID
    case TypeSetTransactionId => Succ(id1) == id2 && id2 == transactionId
    case Unsupported => false
  }

  function MessageOf(kind: MessageType, id1: U64, id2: U64): Message
    requires kind != Unsupported
  {
    match kind
    case TypeCreateSnap => CreateSnap(Low32(id1), Low32(id2))
    case TypeCreateThin => CreateThin(Low32(id1))
    case TypeDelete => Delete(Low32(id1))
    case TypeSetTransactionId => SetTransactionId(id1, id2)
  }

  /**
  What an accepted message does to any pool: a creation and a deletion leave the device there or
  gone, whichever it was before; a snapshot needs a free id and an existing origin; and the
  transaction id only moves from the one given to the next.
  */
  lemma MessageDoes(id1: U64, id2: U64, p: Pool)
    ensures var d := id1 as int % 0x1_0000_0000;
      && Sent(p, MessageOf(TypeCreateThin, id1, id2)) == (true, p.(devices := p.devices + {d}))
      && Sent(p, MessageOf(TypeDelete, id1, id2)) == (true, p.(devices := p.devices - {d}))
    ensures var s, o := id1 as int % 0x1_0000_0000, id2 as int % 0x1_0000_0000;
      Sent(p, MessageOf(TypeCreateSnap, id1, id2)) ==
      if o in p.devices && s !in p.devices then (true, p.(devices := p.devices + {s})) else (false, p)
    ensures Sent(p, MessageOf(TypeSetTransactionId, id1, id2)) ==
      if p.transId == id1 then (true, p.(transId := id2)) else (false, p)
  {
    var d := id1 as int % 0x1_0000_0000;
    assert d in p.devices ==> p.devices + {d} == p.devices;
    assert d !in p.devices ==> p.devices - {d} == p.devices;
  }

  /** Which requests are accepted, for a pool node with that transaction id. */
  lemma AcceptableIff(id1: U64, id2: U64, t: U64)
    ensures Acceptable(TypeCreateThin, id1, id2, t) <==> id1 as int % 0x1_0000_0000 < 0x100_0000
    ensures Acceptable(TypeDelete, id1, id2, t) <==> id1 as int % 0x1_0000_0000 < 0x100_0000
    ensures Acceptable(TypeCreateSnap, id1, id2, t) <==>
            id1 != id2 && id1 as int % 0x1_0000_0000 < 0x100_0000 && id2 as int % 0x1_0000_0000 < 0x100_0000
    ensures Acceptable(TypeSetTransactionId, id1, id2, t) <==>
            id2 == t && (id1 as int + 1) % 0x1_0000_0000_0000_0000 == t as int
    ensures !Acceptable(Unsupported, id1, id2, t)
  {
  }

  /** Ids are compared before they are cut to 32 bits, so a snapshot of itself is accepted when they agree there. */
  lemma SnapshotOfItself(id1: U64, id2: U64, t: U64)
    requires Acceptable(TypeCreateSnap, id1, id2, t)
    ensures var m := MessageOf(TypeCreateSnap, id1, id2);
      m.id == m.origin <==> (id1 as int - id2 as int) % Words.TWO_32 == 0
    ensures Acceptable(TypeCreateSnap, 1, 0x1_0000_0001, t)
  {
    var a, b := id1 as int, id2 as int;
    assert a == a / Words.TWO_32 * Words.TWO_32 + a % Words.TWO_32;
    assert b == b / Words.TWO_32 * Words.TWO_32 + b % Words.TWO_32;
  }

  /** Messages that can be on a node's list. */
  predicate Listed(m: Message, transactionId: U64) {
    match m
    case SetTransactionId(current, next) => current == Pred(transactionId) && next == transactionId
    case CreateSnap(id, origin) => id <= DM_THIN_MAX_DEVICE_ID && origin <= DM_THIN_MAX_DEVICE_ID
    case _ => m.id <= DM_THIN_MAX_DEVICE_ID
  }

  class PoolNode {
    const existing: bool          // info.exists
    const segments: nat           // number of segments
    const thinPool: bool          // the last one is a thin pool
    const uuidMatches: bool
    const transactionId: U64      // seg->transaction_id
    var messages: seq<Message>    // seg->thin_messages
    var pool: Pool                // the pool in the kernel

    constructor (existing: bool, segments: nat, thinPool: bool, uuidMatches: bool, transactionId: U64, pool: Pool)
      ensures Valid() && messages == [] && this.pool == pool && this.transactionId == transactionId
      ensures this.existing == existing && this.segments == segments
      ensures this.thinPool == thinPool && this.uuidMatches == uuidMatches
    {
      this.existing, this.segments, this.thinPool, this.uuidMatches := existing, segments, thinPool, uuidMatches;
      this.transactionId, this.pool, messages := transactionId, pool, [];
    }

    ghost predicate Valid()
      reads `messages
    {
      forall i :: 0 <= i < |messages| ==> Listed(messages[i], transactionId)
    }

    predicate Sends() {
      existing && segments == 1 && thinPool && uuidMatches
    }

    /** `dm_tree_node_add_thin_pool_message` */
    method AddMessage(kind: MessageType, id1: U64, id2: U64) returns (ok: bool)
      requires Valid()
      modifies `messages
      ensures Valid()
      ensures ok <==> segments == 1 && thinPool && Acceptable(kind, id1, id2, transactionId)
      ensures messages == if ok then old(messages) + [MessageOf(kind, id1, id2)] else old(messages)
    {
      if segments != 1 || !thinPool {
        return false;
      }
      var m;
      match kind {
        case TypeCreateSnap =>
          if id1 == id2 || Low32(id1) > DM_THIN_MAX_DEVICE_ID || Low32(id2) > DM_THIN_MAX_DEVICE_ID {
            return false;
          }
          m := CreateSnap(Low32(id1), Low32(id2));
        case TypeCreateThin =>
          if Low32(id1) > DM_THIN_MAX_DEVICE_ID {
            return false;
          }
          m := CreateThin(Low32(id1));
        case TypeDelete =>
          if Low32(id1) > DM_THIN_MAX_DEVICE_ID {
            return false;
          }
          m := Delete(Low32(id1));
        case TypeSetTransactionId =>
          if Succ(id1) != id2 || id2 != transactionId {
            return false;
          }
          SuccPred(id1);
          m := SetTransactionId(id1, id2);
        case Unsupported =>
          return false;
      }
      messages := messages + [m];
      return true;
    }

    /** `_node_send_messages`; the attempt ends early once `cut` messages have got through. */
    method SendMessages(statusFails: bool, cut: nat) returns (ok: bool)
      modifies `pool
      ensures !Sends() ==> ok && pool == old(pool)
      ensures Sends() && statusFails ==> !ok && pool == old(pool)
      ensures Sends() && !statusFails ==> (ok, pool) == Attempt(old(pool), transactionId, messages, cut)
      ensures Sends() && !statusFails && old(pool).transId == transactionId ==> ok && pool == old(pool)
      ensures Sends() && !statusFails && old(pool).transId != transactionId ==>
              (old(pool).transId as int + 1) % Words.TWO_64 != transactionId as int ==> !ok && pool == old(pool)
    {
      if !existing || segments != 1 || !thinPool || !uuidMatches {
        return true;
      }
      if statusFails {
        return false;
      }
      if pool.transId == transactionId {
        return true;
      }
      if pool.transId != Pred(transactionId) {
        return false;
      }
      var i := 0;
      while i < |messages|
        invariant 0 <= i <= |messages| && i <= cut
        invariant SentAll(pool, messages[i..], cut - i) == SentAll(old(pool), messages, cut)
      {
        assert messages[i..][1..] == messages[i+1..];
        if i == cut {
          return false;
        }
        var (sent, after) := Sent(pool, messages[i]);
        if !sent {
          return false;
        }
        pool := after;
        i := i + 1;
      }
      return true;
    }

    /** Activations cut short here and there, then one that is not. */
    method Recover(cuts: seq<nat>, ghost body: seq<Message>) returns (ok: bool)
      requires Sends() && Plain(body) && messages == WithSet(body, transactionId) && pool.transId == Pred(transactionId)
      modifies `pool
      ensures ok && pool == Outcome(old(pool), transactionId, body)
    {
      hide Attempt, Outcome;
      var i := 0;
      while i < |cuts|
        invariant 0 <= i <= |cuts|
        invariant Attempts(pool, transactionId, messages, cuts[i..]) ==
                  Attempts(old(pool), transactionId, messages, cuts)
      {
        assert cuts[i..][1..] == cuts[i+1..];
        var _ := SendMessages(false, cuts[i]);
        i := i + 1;
      }
      ok := SendMessages(false, |messages|);
      CrashRecovery(old(pool), transactionId, body, cuts, |messages|, []);
    }
  }
}
