/**
The queue of pending operations on device nodes (`_stack_node_op`, `_pop_node_ops`).

Stacking an operation may drop earlier ones on the same name.  For additions, removals
and read-ahead settings that are not left to udev, flushing the queue has the same effect
on the device directory as carrying out every operation that was ever stacked.
*/
module NodeOps {

  datatype Kind = Add | Del | Rename | ReadAhead

  /** `struct node_op_parms`, as far as it decides what happens to the device directory. */
  datatype Op = Op(kind: Kind, name: string, oldName: string, dev: nat, warn: bool, relyOnUdev: bool)

  function Slot(k: Kind): (i: nat)
    ensures i < 4
  {
    match k
    case Add => 0
    case Del => 1
    case Rename => 2
    case ReadAhead => 3
  }

  lemma SlotsDiffer(k: Kind, l: Kind)
    ensures Slot(k) == Slot(l) <==> k == l
  {
  }

  function Count(ops: seq<Op>, k: Kind): nat {
    if ops == [] then 0 else (if ops[0].kind == k then 1 else 0) + Count(ops[1..], k)
  }

  lemma {:induction false} CountConcat(a: seq<Op>, b: seq<Op>, k: Kind)
    ensures Count(a + b, k) == Count(a, k) + Count(b, k)
  {
    if a == [] {
      assert a + b == b;
    } else {
      assert (a + b)[1..] == a[1..] + b;
      CountConcat(a[1..], b, k);
    }
  }

  lemma {:induction false} CountPositive(ops: seq<Op>, k: Kind)
    ensures Count(ops, k) > 0 <==> exists i :: 0 <= i < |ops| && ops[i].kind == k
  {
    if ops != [] {
      CountPositive(ops[1..], k);
      if i :| 0 <= i < |ops[1..]| && ops[1..][i].kind == k { assert ops[i+1].kind == k; }
      if i :| 0 < i < |ops| && ops[i].kind == k { assert ops[1..][i-1].kind == k; }
    }
  }

  function Without(ops: seq<Op>, i: nat): seq<Op>
    requires i < |ops|
  {
    ops[..i] + ops[i+1..]
  }

  lemma WithoutAt(ops: seq<Op>, i: nat)
    requires i < |ops|
    ensures |Without(ops, i)| == |ops| - 1
    ensures forall j :: 0 <= j < i ==> Without(ops, i)[j] == ops[j]
  {
  }

  lemma CountWithout(ops: seq<Op>, i: nat, k: Kind)
    requires i < |ops|
    ensures Count(ops, k) == Count(Without(ops, i), k) + if ops[i].kind == k then 1 else 0
  {
    assert ops == ops[..i] + ([ops[i]] + ops[i+1..]);
    CountConcat(ops[..i], [ops[i]] + ops[i+1..], k);
    CountConcat(ops[..i], ops[i+1..], k);
    assert ([ops[i]] + ops[i+1..])[1..] == ops[i+1..];
  }

  /** No other operation on a name stands before a removal of that name. */
  ghost predicate DelsFirst(ops: seq<Op>) {
    forall i, j :: 0 <= i < j < |ops| && ops[j].kind == Del && ops[i].kind != Del ==> ops[i].name != ops[j].name
  }

  // ----- what stacking an operation does to the queue -----

  predicate OnlyDels(ops: seq<Op>) {
    forall i :: 0 <= i < |ops| ==> ops[i].kind == Del
  }

  /** Looking at `rest` with `kept` already passed: operations on `name` go until only removals are left. */
  function DroppedForDel(kept: seq<Op>, rest: seq<Op>, name: string): seq<Op>
    decreases |rest|
  {
    if OnlyDels(kept + rest) || rest == [] then kept + rest
    else if rest[0].name == name then DroppedForDel(kept, rest[1..], name)
    else DroppedForDel(kept + [rest[0]], rest[1..], name)
  }

  function DroppedForAdd(ops: seq<Op>, name: string): seq<Op> {
    if ops == [] then []
    else if ops[0].kind == Del && ops[0].name == name then ops[1..]
    else [ops[0]] + DroppedForAdd(ops[1..], name)
  }

  function DroppedForRename(ops: seq<Op>, oldName: string): seq<Op> {
    if ops == [] then []
    else (if ops[0].name == oldName then [] else [ops[0]]) + DroppedForRename(ops[1..], oldName)
  }

  /** The flags an operation is queued with. */
  function Queued(op: Op): Op {
    if op.kind == ReadAhead then op.(relyOnUdev := false, warn := false)
    else op.(warn := op.warn && !op.relyOnUdev)
  }

  function Stacked(ops: seq<Op>, op: Op): seq<Op> {
    (match op.kind
     case Del => DroppedForDel([], ops, op.name)
     case Add => DroppedForAdd(ops, op.name)
     case Rename => DroppedForRename(ops, op.oldName)
     case ReadAhead => ops) + [Queued(op)]
  }

  /** The queue after a whole session. */
  function Session(requests: seq<Op>): seq<Op>
    decreases |requests|
  {
    if requests == [] then [] else Stacked(Session(requests[..|requests| - 1]), requests[|requests| - 1])
  }

  lemma OneMoreRequest(requests: seq<Op>, op: Op)
    ensures Session(requests + [Queued(op)]) == Stacked(Session(requests), op)
  {
    assert (requests + [Queued(op)])[..|requests|] == requests;
  }

  lemma DroppedForDelEnds(ops: seq<Op>, i: nat, name: string)
    requires i <= |ops| && (OnlyDels(ops) || i == |ops|)
    ensures DroppedForDel(ops[..i], ops[i..], name) == ops
  {
    assert ops[..i] + ops[i..] == ops;
  }

  lemma DroppedForDelStep(ops: seq<Op>, i: nat, name: string)
    requires i < |ops| && !OnlyDels(ops)
    ensures DroppedForDel(ops[..i], ops[i..], name) ==
      if ops[i].name == name then DroppedForDel(Without(ops, i)[..i], Without(ops, i)[i..], name)
      else DroppedForDel(ops[..i+1], ops[i+1..], name)
  {
    assert ops[..i] + ops[i..] == ops;
    assert ops[i..][1..] == ops[i+1..];
    assert Without(ops, i)[..i] == ops[..i] && Without(ops, i)[i..] == ops[i+1..];
    assert ops[..i] + [ops[i]] == ops[..i+1];
  }

  /** What a rename leaves of the queue when the first `i` operations have been looked at. */
  function RenameFrom(ops: seq<Op>, i: nat, oldName: string): seq<Op>
    requires i <= |ops|
  {
    ops[..i] + DroppedForRename(ops[i..], oldName)
  }

  lemma RenameEnds(ops: seq<Op>, oldName: string)
    ensures RenameFrom(ops, 0, oldName) == DroppedForRename(ops, oldName) && RenameFrom(ops, |ops|, oldName) == ops
  {
    assert ops[0..] == ops && ops[..|ops|] == ops;
  }

  lemma RenameStep(ops: seq<Op>, i: nat, oldName: string)
    requires i < |ops|
    ensures |Without(ops, i)| == |ops| - 1
    ensures RenameFrom(ops, i, oldName) ==
      if ops[i].name == oldName then RenameFrom(Without(ops, i), i, oldName) else RenameFrom(ops, i + 1, oldName)
  {
    assert ops[i..][1..] == ops[i+1..];
    assert Without(ops, i)[..i] == ops[..i] && Without(ops, i)[i..] == ops[i+1..];
    assert ops[..i+1] == ops[..i] + [ops[i]];
  }

  lemma {:induction false} DroppedForAddAt(ops: seq<Op>, name: string, i: nat)
    requires i <= |ops|
    requires forall j :: 0 <= j < i ==> !(ops[j].kind == Del && ops[j].name == name)
    ensures i < |ops| && ops[i].kind == Del && ops[i].name == name ==> DroppedForAdd(ops, name) == Without(ops, i)
    ensures i == |ops| ==> DroppedForAdd(ops, name) == ops
  {
    if i > 0 {
      DroppedForAddAt(ops[1..], name, i - 1);
      assert i < |ops| ==> Without(ops, i) == [ops[0]] + Without(ops[1..], i - 1);
    }
  }

  // ----- what the operations do to the device directory -----

  type Nodes = map<string, nat>

  /** rename(2), which changes nothing when the old name is missing. */
  function Moved(m: Nodes, oldName: string, name: string): Nodes {
    if oldName in m then (m - {oldName})[name := m[oldName]] else m
  }

  /** `_do_node_op`, when no other system call fails. */
  function Effect(m: Nodes, op: Op): Nodes {
    match op.kind
    case Add => m[op.name := op.dev]
    case Del => m - {op.name}
    case Rename =>
      if op.name in m && op.warn then m - {op.oldName} else Moved(m - {op.name}, op.oldName, op.name)
    case ReadAhead => m
  }

  function Replay(m: Nodes, ops: seq<Op>): Nodes
    decreases |ops|
  {
    if ops == [] then m else Replay(Effect(m, ops[0]), ops[1..])
  }

  lemma {:induction false} ReplayConcat(m: Nodes, a: seq<Op>, b: seq<Op>)
    ensures Replay(m, a + b) == Replay(Replay(m, a), b)
    decreases |a|
  {
    if a == [] {
      assert a + b == b;
    } else {
      assert (a + b)[1..] == a[1..] + b;
      ReplayConcat(Effect(m, a[0]), a[1..], b);
    }
  }

  lemma ReplayOneMore(m: Nodes, ops: seq<Op>, op: Op)
    ensures Replay(m, ops + [op]) == Effect(Replay(m, ops), op)
  {
    ReplayConcat(m, ops, [op]);
    assert [op][1..] == [];
  }

  /** Operations that the program carries out itself and that concern one name only. */
  predicate Plain(op: Op) {
    op.kind != Rename && !op.relyOnUdev
  }

  ghost predicate AllPlain(ops: seq<Op>) {
    forall i :: 0 <= i < |ops| ==> Plain(ops[i])
  }

  ghost predicate AgreeExcept(m: Nodes, n: Nodes, name: string) {
    forall x :: x != name ==> (x in m <==> x in n) && (x in m ==> m[x] == n[x])
  }

  lemma {:induction false} ReplayAgrees(m: Nodes, n: Nodes, ops: seq<Op>, name: string)
    requires AgreeExcept(m, n, name) && AllPlain(ops)
    ensures AgreeExcept(Replay(m, ops), Replay(n, ops), name)
    decreases |ops|
  {
    if ops != [] {
      ReplayAgrees(Effect(m, ops[0]), Effect(n, ops[0]), ops[1..], name);
    }
  }

  /** Dropping an operation on a name changes nothing about other names. */
  lemma DroppedAgrees(m: Nodes, ops: seq<Op>, i: nat)
    requires i < |ops| && AllPlain(ops)
    ensures AgreeExcept(Replay(m, Without(ops, i)), Replay(m, ops), ops[i].name)
  {
    var a, b := ops[..i], ops[i+1..];
    assert ops == a + ([ops[i]] + b);
    ReplayConcat(m, a, b);
    ReplayConcat(m, a, [ops[i]] + b);
    assert ([ops[i]] + b)[1..] == b;
    ReplayAgrees(Replay(m, a), Effect(Replay(m, a), ops[i]), b, ops[i].name);
  }

  /** The queue without some operations on `name`. */
  ghost predicate DroppedOnly(before: seq<Op>, after: seq<Op>, name: string) {
    && (AllPlain(before) ==> AllPlain(after) && forall m :: AgreeExcept(Replay(m, after), Replay(m, before), name))
    && (DelsFirst(before) ==> DelsFirst(after))
  }

  lemma DroppedNone(ops: seq<Op>, name: string)
    ensures DroppedOnly(ops, ops, name)
  {
  }

  lemma DroppedOneMore(before: seq<Op>, ops: seq<Op>, i: nat, name: string)
    requires i < |ops| && ops[i].name == name && DroppedOnly(before, ops, name)
    ensures DroppedOnly(before, Without(ops, i), name)
  {
    var after := Without(ops, i);
    assert forall j :: 0 <= j < |after| ==> after[j] == ops[if j < i then j else j + 1];
    if AllPlain(before) {
      forall m ensures AgreeExcept(Replay(m, after), Replay(m, before), name) {
        DroppedAgrees(m, ops, i);
      }
    }
  }

  /** Dropping operations on the name of an addition or removal makes no difference once that one follows. */
  lemma DroppedThenSet(before: seq<Op>, after: seq<Op>, op: Op, m: Nodes)
    requires DroppedOnly(before, after, op.name) && AllPlain(before) && (op.kind == Add || op.kind == Del)
    ensures Replay(m, after + [op]) == Replay(m, before + [op])
  {
    ReplayOneMore(m, after, op);
    ReplayOneMore(m, before, op);
    var x, y := Replay(m, after), Replay(m, before);
    assert AgreeExcept(x, y, op.name);
    assert Effect(x, op) == Effect(y, op);
  }

  /** What `_pop_node_ops` carries out itself. */
  function Executed(ops: seq<Op>): seq<Op> {
    if ops == [] then [] else (if ops[0].relyOnUdev then [] else [ops[0]]) + Executed(ops[1..])
  }

  lemma FirstExecuted(m: Nodes, ops: seq<Op>)
    requires ops != []
    ensures Replay(m, Executed(ops)) == Replay(if ops[0].relyOnUdev then m else Effect(m, ops[0]), Executed(ops[1..]))
  {
    var rest := Executed(ops[1..]);
    assert ([ops[0]] + rest)[1..] == rest && [] + rest == rest;
  }

  lemma NothingExecuted(m: Nodes)
    ensures Replay(m, Executed([])) == m && DelsFirst([]) && AllPlain([])
  {
  }

  lemma {:induction false} AllExecuted(ops: seq<Op>)
    requires forall i :: 0 <= i < |ops| ==> !ops[i].relyOnUdev
    ensures Executed(ops) == ops
  {
    if ops != [] {
      AllExecuted(ops[1..]);
      assert ops == [ops[0]] + ops[1..];
    }
  }

  lemma PlainIsExecuted(ops: seq<Op>)
    requires AllPlain(ops)
    ensures Executed(ops) == ops
  {
    AllExecuted(ops);
  }

  class Queue {
    var ops: seq<Op>
    const counts: array<int>     // _count_node_ops
    var nodes: Nodes             // the device directory
    ghost var stacked: seq<Op>   // everything stacked since the last flush

    constructor (nodes: Nodes)
      ensures Valid() && ops == [] && stacked == [] && this.nodes == nodes && fresh(counts)
    {
      this.nodes, ops, stacked := nodes, [], [];
      counts := new int[4](_ => 0);
    }

    ghost predicate CountsMatch()
      reads this, counts
    {
      counts.Length == 4 && forall k :: counts[Slot(k)] == Count(ops, k)
    }

    ghost predicate Valid()
      reads this, counts
    {
      && CountsMatch()
      && DelsFirst(ops)
      && ops == Session(stacked)
      && (AllPlain(stacked) ==> AllPlain(ops) && forall m :: Replay(m, ops) == Replay(m, stacked))
    }

    /** `_other_node_ops` */
    method OtherNodeOps(kind: Kind) returns (r: bool)
      requires CountsMatch()
      ensures r <==> exists i :: 0 <= i < |ops| && ops[i].kind != kind
    {
      forall k ensures Count(ops, k) > 0 <==> exists i :: 0 <= i < |ops| && ops[i].kind == k {
        CountPositive(ops, k);
      }
      var kinds := [Add, Del, Rename, ReadAhead];
      for i := 0 to 4
        invariant forall j :: 0 <= j < i ==> kinds[j] == kind || Count(ops, kinds[j]) == 0
      {
        if kind != kinds[i] && counts[Slot(kinds[i])] != 0 {
          assert Count(ops, kinds[i]) > 0;
          return true;
        }
      }
      assert kinds[0] == Add && kinds[1] == Del && kinds[2] == Rename && kinds[3] == ReadAhead;
      forall j | 0 <= j < |ops| ensures ops[j].kind == kind {
        assert Count(ops, ops[j].kind) > 0;
      }
      return false;
    }

    /** `_del_node_op` */
    method DelNodeOp(i: nat)
      requires CountsMatch() && i < |ops|
      modifies `ops, counts
      ensures CountsMatch() && ops == Without(old(ops), i)
    {
      var slot := Slot(ops[i].kind);
      forall k
        ensures Count(ops, k) == Count(Without(ops, i), k) + if Slot(k) == slot then 1 else 0
      {
        CountWithout(ops, i, k);
        SlotsDiffer(k, ops[i].kind);
      }
      counts[slot] := counts[slot] - 1;
      ops := Without(ops, i);
    }

    /** Unstacking before a removal: everything on that name, until only removals are left. */
    method UnstackForDel(name: string)
      requires CountsMatch()
      modifies `ops, counts
      ensures CountsMatch() && DroppedOnly(old(ops), ops, name) && ops == DroppedForDel([], old(ops), name)
      ensures forall j :: 0 <= j < |ops| && ops[j].name == name ==> ops[j].kind == Del
    {
      hide DroppedOnly, DroppedForDel, Count, Without;
      DroppedNone(ops, name);
      assert ops[..0] == [] && ops[0..] == ops;
      var others := OtherNodeOps(Del);
      if !others {
        DroppedForDelEnds(ops, 0, name);
        return;
      }
      var i := 0;
      while i < |ops|
        invariant 0 <= i <= |ops| && CountsMatch() && DroppedOnly(old(ops), ops, name)
        invariant !OnlyDels(ops)
        invariant DroppedForDel(ops[..i], ops[i..], name) == DroppedForDel([], old(ops), name)
        invariant forall j :: 0 <= j < i ==> ops[j].name != name
        decreases |ops| - i
      {
        DroppedForDelStep(ops, i, name);
        if ops[i].name == name {
          DroppedOneMore(old(ops), ops, i, name);
          ghost var before := ops;
          DelNodeOp(i);
          WithoutAt(before, i);
          others := OtherNodeOps(Del);
          if !others {
            DroppedForDelEnds(ops, i, name);
            return;
          }
        } else {
          i := i + 1;
        }
      }
      DroppedForDelEnds(ops, i, name);
    }

    /** Unstacking before an addition: the first removal of that name. */
    method UnstackForAdd(name: string)
      requires CountsMatch()
      modifies `ops, counts
      ensures CountsMatch() && DroppedOnly(old(ops), ops, name) && ops == DroppedForAdd(old(ops), name)
    {
      DroppedNone(ops, name);
      if counts[Slot(Del)] == 0 {
        CountPositive(ops, Del);
        DroppedForAddAt(ops, name, |ops|);
        return;
      }
      for i := 0 to |ops|
        invariant CountsMatch() && ops == old(ops)
        invariant forall j :: 0 <= j < i ==> !(ops[j].kind == Del && ops[j].name == name)
      {
        if ops[i].kind == Del && ops[i].name == name {
          DroppedOneMore(ops, ops, i, name);
          DroppedForAddAt(ops, name, i);
          DelNodeOp(i);
          return;
        }
      }
      DroppedForAddAt(ops, name, |ops|);
    }

    /** Unstacking before a rename: everything on the old name. */
    method UnstackForRename(oldName: string)
      requires CountsMatch()
      modifies `ops, counts
      ensures CountsMatch() && DroppedOnly(old(ops), ops, oldName) && ops == DroppedForRename(old(ops), oldName)
    {
      hide DroppedOnly, Count, Without, RenameFrom, DroppedForRename;
      DroppedNone(ops, oldName);
      RenameEnds(ops, oldName);
      var i := 0;
      while i < |ops|
        invariant 0 <= i <= |ops| && CountsMatch() && DroppedOnly(old(ops), ops, oldName)
        invariant RenameFrom(ops, i, oldName) == DroppedForRename(old(ops), oldName)
        decreases |ops| - i
      {
        RenameStep(ops, i, oldName);
        if ops[i].name == oldName {
          DroppedOneMore(old(ops), ops, i, oldName);
          DelNodeOp(i);
        } else {
          i := i + 1;
        }
      }
      RenameEnds(ops, oldName);
    }

    /** Appending to the queue and its counter. */
    method Enqueue(op: Op)
      requires CountsMatch()
      modifies `ops, counts
      ensures CountsMatch() && ops == old(ops) + [op]
    {
      var slot := Slot(op.kind);
      assert [op][1..] == [];
      forall k
        ensures Count(ops + [op], k) == Count(ops, k) + if Slot(k) == slot then 1 else 0
      {
        CountConcat(ops, [op], k);
        SlotsDiffer(k, op.kind);
      }
      counts[slot] := counts[slot] + 1;
      ops := ops + [op];
    }

    /** `_stack_node_op` */
    method StackNodeOp(request: Op)
      requires Valid()
      modifies this, counts
      ensures Valid() && nodes == old(nodes)
      ensures ops == Stacked(old(ops), request) && stacked == old(stacked) + [Queued(request)]
    {
      hide DroppedOnly, Count, DroppedForDel, DroppedForAdd, DroppedForRename, Session;
      var op := request;
      ghost var before := ops;
      match op.kind {
        case Del => UnstackForDel(op.name);
        case Add => UnstackForAdd(op.name);
        case Rename => UnstackForRename(op.oldName);
        case ReadAhead =>
          op := op.(relyOnUdev := false, warn := false);
          DroppedNone(ops, op.name);
      }
      op := op.(warn := if op.relyOnUdev then false else op.warn);
      ghost var after := ops;
      Enqueue(op);
      StackedFaithfully(stacked, before, after, op);
      OneMoreRequest(stacked, request);
      stacked := stacked + [op];
    }

    /** `_pop_node_ops`: the queue and its counters are empty afterwards. */
    method PopNodeOps()
      requires Valid()
      modifies this, counts
      ensures Valid() && ops == [] && stacked == [] && forall j :: 0 <= j < 4 ==> counts[j] == 0
      ensures nodes == Replay(old(nodes), Executed(old(ops)))
      ensures AllPlain(old(stacked)) ==> nodes == Replay(old(nodes), old(stacked))
    {
      hide Replay, Executed, AllPlain, DelsFirst;
      ghost var queue := ops;
      while ops != []
        invariant CountsMatch()
        invariant Replay(nodes, Executed(ops)) == Replay(old(nodes), Executed(queue))
        decreases |ops|
      {
        var op := ops[0];
        FirstExecuted(nodes, ops);
        assert Without(ops, 0) == ops[1..];
        if !op.relyOnUdev {
          nodes := Effect(nodes, op);
        }
        DelNodeOp(0);
      }
      stacked := [];
      NothingExecuted(nodes);
      if AllPlain(old(stacked)) {
        PlainIsExecuted(queue);
      }
      assert counts[Slot(Add)] == counts[Slot(Del)] == counts[Slot(Rename)] == counts[Slot(ReadAhead)] == 0;
    }
  }

  /** Stacking keeps removals first and keeps the meaning of plain operations. */
  lemma StackedFaithfully(stacked: seq<Op>, before: seq<Op>, after: seq<Op>, op: Op)
    requires DelsFirst(before)
    requires AllPlain(stacked) ==> AllPlain(before) && forall m :: Replay(m, before) == Replay(m, stacked)
    requires op.kind == Del ==> forall j :: 0 <= j < |after| && after[j].name == op.name ==> after[j].kind == Del
    requires DroppedOnly(before, after, if op.kind == Rename then op.oldName else op.name)
    requires op.kind == ReadAhead ==> after == before
    ensures DelsFirst(after + [op])
    ensures AllPlain(stacked + [op]) ==>
            AllPlain(after + [op]) && forall m :: Replay(m, after + [op]) == Replay(m, stacked + [op])
  {
    if AllPlain(stacked + [op]) {
      assert (stacked + [op])[|stacked|] == op;
      assert forall i :: 0 <= i < |stacked| ==> (stacked + [op])[i] == stacked[i];
      forall m ensures Replay(m, after + [op]) == Replay(m, stacked + [op]) {
        ReplayOneMore(m, stacked, op);
        ReplayOneMore(m, before, op);
        if op.kind != ReadAhead { DroppedThenSet(before, after, op, m); }
      }
    }
  }

  lemma DelForgetsRename(rename: Op, del: Op)
    requires rename.kind == Rename && del.kind == Del && rename.name == del.name
    ensures Stacked(Stacked([], rename), del) == [Queued(del)]
  {
    var queue := [Queued(rename)];
    assert Stacked([], rename) == queue;
    assert queue[0].kind == Rename;
    DroppedForDelStep(queue, 0, del.name);
    assert queue[..0] == [] && queue[0..] == queue && Without(queue, 0) == [];
    DroppedForDelEnds([], 0, del.name);
  }

  /**
  Renames are outside the guarantee: unstacking compares new names only, so removing a name
  forgets the rename that was to create it and the node stays under its old name.
  */
  lemma RenameThenDelKeepsOldNode(rename: Op, del: Op, m: Nodes)
    requires rename.kind == Rename && del.kind == Del && rename.name == del.name != rename.oldName
    requires rename.oldName in m && rename.name !in m
    ensures Replay(m, [rename, del]) == m - {rename.oldName}
    ensures Replay(m, Stacked(Stacked([], rename), del)) == m
  {
    hide Stacked;
    DelForgetsRename(rename, del);
    ReplayOneMore(m, [], rename);
    ReplayOneMore(m, [rename], del);
    ReplayOneMore(m, [], Queued(del));
    assert [] + [rename] == [rename] && [rename] + [del] == [rename, del] && [] + [Queued(del)] == [Queued(del)];
    assert Effect(Effect(m, rename), del) == m - {rename.oldName};
    assert m - {rename.name} == m;
  }
}
