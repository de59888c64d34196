/**
Queues with renames.

What ends up under a name is traced through the operations alone.  Stacking one more operation
then keeps the meaning of the queue exactly if no rename is forgotten that took a node away from
a name where it would now reappear and, before another rename, if nothing is forgotten that put
something under its old name.
*/
module NodeRenames {
  import opened NodeOps
  import opened Words

  // ----- traces -----

  /** Where the content of a name comes from: an original name, a device number, or nowhere. */
  datatype Content = Was(name: string) | Is(dev: nat) | Gone

  ghost predicate NoWarnings(ops: seq<Op>) {
    forall i :: 0 <= i < |ops| ==> !ops[i].warn
  }

  /** What ends up under a name, read off the operations alone. */
  function Final(ops: seq<Op>, x: string): Content
    decreases |ops|
  {
    if ops == [] then Was(x)
    else
      var front, op := ops[..|ops| - 1], ops[|ops| - 1];
      match op.kind
      case Add => if x == op.name then Is(op.dev) else Final(front, x)
      case Del => if x == op.name then Gone else Final(front, x)
      case ReadAhead => Final(front, x)
      case Rename =>
        if x == op.oldName then Gone else Final(front, if x == op.name then op.oldName else x)
  }

  datatype Node = NoNode | HasNode(dev: nat)

  function NodeAt(m: Nodes, x: string): Node {
    if x in m then HasNode(m[x]) else NoNode
  }

  function NodeOf(m: Nodes, c: Content): Node {
    match c
    case Was(name) => NodeAt(m, name)
    case Is(dev) => HasNode(dev)
    case Gone => NoNode
  }

  lemma EffectAt(m: Nodes, op: Op, x: string)
    requires !op.warn
    ensures NodeAt(Effect(m, op), x) ==
      match op.kind
      case Add => if x == op.name then HasNode(op.dev) else NodeAt(m, x)
      case Del => if x == op.name then NoNode else NodeAt(m, x)
      case ReadAhead => NodeAt(m, x)
      case Rename => if x == op.oldName then NoNode else NodeAt(m, if x == op.name then op.oldName else x)
  {
  }

  /** The trace is right for every directory. */
  lemma {:induction false} FinalIs(m: Nodes, ops: seq<Op>, x: string)
    requires NoWarnings(ops)
    ensures NodeAt(Replay(m, ops), x) == NodeOf(m, Final(ops, x))
    decreases |ops|
  {
    if ops != [] {
      hide Effect, Replay;
      var front, op := ops[..|ops| - 1], ops[|ops| - 1];
      assert ops == front + [op];
      ReplayOneMore(m, front, op);
      EffectAt(Replay(m, front), op, x);
      FinalIs(m, front, x);
      FinalIs(m, front, op.oldName);
    } else {
      assert Replay(m, []) == m;
    }
  }

  ghost predicate SameEffect(a: seq<Op>, b: seq<Op>) {
    forall m: Nodes :: Replay(m, a) == Replay(m, b)
  }

  function Names(ops: seq<Op>): set<string> {
    (set op | op in ops :: op.name) + (set op | op in ops :: op.oldName)
  }

  /** A check on the operations alone: of the names they mention, each traces back to the same content. */
  predicate SameTraces(a: seq<Op>, b: seq<Op>) {
    forall x :: x in Names(a) + Names(b) ==> Final(a, x) == Final(b, x)
  }

  lemma {:induction false} UnnamedStays(ops: seq<Op>, x: string)
    requires x !in Names(ops)
    ensures Final(ops, x) == Was(x)
    decreases |ops|
  {
    if ops != [] {
      var front, op := ops[..|ops| - 1], ops[|ops| - 1];
      assert op in ops && op.name in Names(ops) && op.oldName in Names(ops);
      assert Names(front) <= Names(ops);
      UnnamedStays(front, x);
    }
  }

  ghost predicate SameFinals(a: seq<Op>, b: seq<Op>) {
    forall x: string :: Final(a, x) == Final(b, x)
  }

  lemma SameEffectByTraces(a: seq<Op>, b: seq<Op>)
    requires NoWarnings(a) && NoWarnings(b)
    ensures SameEffect(a, b) <==> SameFinals(a, b)
  {
    hide Replay, Final;
    if SameEffect(a, b) {
      forall x: string ensures Final(a, x) == Final(b, x) { SameTrace(a, b, x); }
    }
    if SameFinals(a, b) {
      forall m: Nodes ensures Replay(m, a) == Replay(m, b) {
        forall x: string ensures NodeAt(Replay(m, a), x) == NodeAt(Replay(m, b), x) {
          FinalIs(m, a, x);
          FinalIs(m, b, x);
        }
        SameNodes(Replay(m, a), Replay(m, b));
      }
    }
  }

  /** Two lists do the same to every directory exactly when the names they mention trace back to the same content. */
  lemma SameEffectIff(a: seq<Op>, b: seq<Op>)
    requires NoWarnings(a) && NoWarnings(b)
    ensures SameEffect(a, b) <==> SameTraces(a, b)
  {
    hide Replay, Final, Names;
    SameEffectByTraces(a, b);
    forall x: string | x !in Names(a) + Names(b) ensures Final(a, x) == Final(b, x) {
      UnnamedStays(a, x);
      UnnamedStays(b, x);
    }
  }

  lemma SameNodes(m: Nodes, n: Nodes)
    requires forall x: string :: NodeAt(m, x) == NodeAt(n, x)
    ensures m == n
  {
    forall x: string ensures x in m <==> x in n { assert NodeAt(m, x) == NodeAt(n, x); }
    forall x: string | x in m ensures m[x] == n[x] { assert NodeAt(m, x) == NodeAt(n, x); }
  }

  /** Directories that tell two contents apart. */
  lemma SameTrace(a: seq<Op>, b: seq<Op>, x: string)
    requires NoWarnings(a) && NoWarnings(b) && SameEffect(a, b)
    ensures Final(a, x) == Final(b, x)
  {
    hide Replay, Final;
    var c, d := Final(a, x), Final(b, x);
    var i := (if c.Is? then c.dev else 0) + (if d.Is? then d.dev else 0) + 1;
    var m := map[(if c.Was? then c.name else "") := i];
    var n := map[(if d.Was? then d.name else "") := i];
    assert Replay(map[], a) == Replay(map[], b) && Replay(m, a) == Replay(m, b) && Replay(n, a) == Replay(n, b);
    FinalIs(map[], a, x);
    FinalIs(map[], b, x);
    FinalIs(m, a, x);
    FinalIs(m, b, x);
    FinalIs(n, a, x);
    FinalIs(n, b, x);
  }

  // ----- following a node forward -----

  datatype Place = At(name: string) | Lost

  /** Where a node under some name ends up, or nowhere once it is removed or overwritten. */
  function Carried(ops: seq<Op>, c: string): Place
    decreases |ops|
  {
    if ops == [] then At(c) else Next(Carried(ops[..|ops| - 1], c), ops[|ops| - 1])
  }

  function Next(p: Place, op: Op): Place {
    if op.kind == Rename && p == At(op.oldName) && op.oldName != op.name then At(op.name)
    else if op.kind != ReadAhead && p == At(op.name) then Lost
    else p
  }

  /** Tracing back and following forward agree. */
  lemma {:induction false} CarriedIs(ops: seq<Op>, c: string, x: string)
    ensures Carried(ops, c) == At(x) <==> Final(ops, x) == Was(c)
    decreases |ops|
  {
    if ops != [] {
      var front, op := ops[..|ops| - 1], ops[|ops| - 1];
      CarriedIs(front, c, x);
      CarriedIs(front, c, op.oldName);
      CarriedIs(front, c, op.name);
    }
  }

  function Traced(c: Content, ops: seq<Op>): Content {
    if c.Was? then Final(ops, c.name) else c
  }

  lemma {:induction false} FinalConcat(a: seq<Op>, b: seq<Op>, x: string)
    ensures Final(a + b, x) == Traced(Final(b, x), a)
    decreases |b|
  {
    if b == [] {
      assert a + b == a;
    } else {
      var front, op := b[..|b| - 1], b[|b| - 1];
      assert (a + b)[..|a + b| - 1] == a + front && (a + b)[|a + b| - 1] == op;
      FinalConcat(a, front, x);
      FinalConcat(a, front, op.oldName);
    }
  }

  // ----- queues as they come about -----

  /** Nothing done under a name stands before a rename away from it. */
  ghost predicate RenamesFirst(ops: seq<Op>) {
    forall i, j :: 0 <= i < j < |ops| && ops[j].kind == Rename ==> ops[i].name != ops[j].oldName
  }

  /** The operations that a mask keeps. */
  function Keep(ops: seq<Op>, mask: seq<bool>): seq<Op>
    requires |mask| == |ops|
    decreases |ops|
  {
    if ops == [] then [] else (if mask[0] then [ops[0]] else []) + Keep(ops[1..], mask[1..])
  }

  lemma {:induction false} KeepConcat(a: seq<Op>, b: seq<Op>, m: seq<bool>, n: seq<bool>)
    requires |a| == |m| && |b| == |n|
    ensures Keep(a + b, m + n) == Keep(a, m) + Keep(b, n)
    decreases |a|
  {
    if a == [] {
      assert a + b == b && m + n == n;
    } else {
      hide Keep;
      KeepFirst(a, m);
      KeepFirst(a + b, m + n);
      TailOfConcat(a, b);
      TailOfConcat(m, n);
      KeepConcat(a[1..], b, m[1..], n);
      Associative([a[0]], Keep(a[1..], m[1..]), Keep(b, n));
    }
  }

  lemma KeepFirst(ops: seq<Op>, mask: seq<bool>)
    requires |mask| == |ops| > 0
    ensures Keep(ops, mask) == if mask[0] then [ops[0]] + Keep(ops[1..], mask[1..]) else Keep(ops[1..], mask[1..])
  {
  }

  lemma KeepLast(ops: seq<Op>, mask: seq<bool>)
    requires |mask| == |ops| > 0
    ensures var n := |ops| - 1; Keep(ops, mask) == Keep(ops[..n], mask[..n]) + if mask[n] then [ops[n]] else []
  {
    hide Keep;
    var n := |ops| - 1;
    KeepSnoc(ops[..n], mask[..n], ops[n], mask[n]);
    assert ops[..n] + [ops[n]] == ops;
    assert mask[..n] + [mask[n]] == mask;
  }

  lemma KeepSnoc(ops: seq<Op>, mask: seq<bool>, op: Op, b: bool)
    requires |mask| == |ops|
    ensures Keep(ops + [op], mask + [b]) == Keep(ops, mask) + if b then [op] else []
  {
    hide Keep;
    KeepConcat(ops, [op], mask, [b]);
    KeepOne(op, b);
  }

  lemma KeepOne(op: Op, b: bool)
    ensures Keep([op], [b]) == if b then [op] else []
  {
    assert [op][1..] == [] && [b][1..] == [];
  }

  /** Only operations on `name` are dropped. */
  ghost predicate DropsOn(ops: seq<Op>, mask: seq<bool>, name: string) {
    |mask| == |ops| && forall i :: 0 <= i < |ops| && !mask[i] ==> ops[i].name == name
  }

  /** No rename to `name` is kept. */
  ghost predicate DropsRenames(ops: seq<Op>, mask: seq<bool>, name: string)
    requires |mask| == |ops|
  {
    forall i :: 0 <= i < |ops| && ops[i].kind == Rename && mask[i] ==> ops[i].name != name
  }

  lemma {:induction false} KeepAll(ops: seq<Op>, mask: seq<bool>)
    requires |mask| == |ops| && forall i :: 0 <= i < |ops| ==> mask[i]
    ensures Keep(ops, mask) == ops
    decreases |ops|
  {
    if ops != [] {
      KeepAll(ops[1..], mask[1..]);
      assert ops == [ops[0]] + ops[1..];
    }
  }

  lemma PrefixKeeps(ops: seq<Op>, mask: seq<bool>, name: string, i: nat)
    requires i <= |ops| && RenamesFirst(ops) && DropsOn(ops, mask, name)
    ensures RenamesFirst(ops[..i]) && DropsOn(ops[..i], mask[..i], name)
    ensures RenamesFirst(ops[i..]) && DropsOn(ops[i..], mask[i..], name)
  {
    assert forall j :: 0 <= j < i ==> ops[..i][j] == ops[j] && mask[..i][j] == mask[j];
    assert forall j :: 0 <= j < |ops| - i ==> ops[i..][j] == ops[i+j] && mask[i..][j] == mask[i+j];
  }

  // ----- which dropped operations are missed -----

  /** A dropped rename took the node away that would now be under `y`. */
  ghost predicate Missed(ops: seq<Op>, mask: seq<bool>, i: nat, y: string)
    requires |mask| == |ops| && i < |ops|
  {
    !mask[i] && ops[i].kind == Rename && Carried(ops[i+1..], ops[i].oldName) == At(y)
  }

  lemma MissedLater(ops: seq<Op>, mask: seq<bool>, i: nat, y: string, y': string)
    requires |mask| == |ops| > 0 && i < |ops| - 1
    requires Missed(ops[..|ops| - 1], mask[..|ops| - 1], i, y') && Next(At(y'), ops[|ops| - 1]) == At(y)
    ensures Missed(ops, mask, i, y)
  {
    var n := |ops| - 1;
    assert ops[i+1..][..n - i - 1] == ops[..n][i+1..];
  }

  /** A name that misses no rename traces back to what it would without dropping. */
  lemma {:induction false} TracesAlike(ops: seq<Op>, mask: seq<bool>, name: string, y: string)
    requires RenamesFirst(ops) && DropsOn(ops, mask, name) && y != name
    requires forall i :: 0 <= i < |ops| ==> !Missed(ops, mask, i, y)
    ensures Final(Keep(ops, mask), y) == Final(ops, y)
    decreases |ops|, 0
  {
    if ops != [] {
      hide Keep, RenamesFirst, DropsOn;
      var n := |ops| - 1;
      var front, op, m := ops[..n], ops[n], mask[..n];
      KeepLast(ops, mask);
      PrefixKeeps(ops, mask, name, n);
      if !mask[n] {
        DroppedAt(ops, mask, name, n);
        assert !Missed(ops, mask, n, y);
        assert Keep(front, m) + [] == Keep(front, m);
        TracesAlikeBefore(ops, mask, name, y, y);
      } else {
        LastFinal(Keep(front, m), op, y);
        if op.kind == Rename && y == op.name && y != op.oldName {
          TracesAlikeBefore(ops, mask, name, y, op.oldName);
        } else if !(y == op.oldName && op.kind == Rename) && !(y == op.name && op.kind != ReadAhead) {
          TracesAlikeBefore(ops, mask, name, y, y);
        }
      }
    }
  }

  lemma DroppedAt(ops: seq<Op>, mask: seq<bool>, name: string, i: nat)
    requires DropsOn(ops, mask, name) && i < |ops| && !mask[i]
    ensures ops[i].name == name
  {
  }

  lemma LastFinal(ops: seq<Op>, op: Op, y: string)
    ensures Final(ops + [op], y) ==
      match op.kind
      case Add => if y == op.name then Is(op.dev) else Final(ops, y)
      case Del => if y == op.name then Gone else Final(ops, y)
      case ReadAhead => Final(ops, y)
      case Rename => if y == op.oldName then Gone else Final(ops, if y == op.name then op.oldName else y)
  {
    assert (ops + [op])[..|ops|] == ops;
  }

  lemma TracesAlikeBefore(ops: seq<Op>, mask: seq<bool>, name: string, y: string, y': string)
    requires ops != [] && RenamesFirst(ops) && DropsOn(ops, mask, name) && y != name
    requires forall i :: 0 <= i < |ops| ==> !Missed(ops, mask, i, y)
    requires var op := ops[|ops| - 1];
      if mask[|ops| - 1] && op.kind == Rename && y == op.name && y != op.oldName then y' == op.oldName
      else y' == y && Next(At(y), op) == At(y)
    ensures var n := |ops| - 1; Final(Keep(ops[..n], mask[..n]), y') == Final(ops[..n], y')
    decreases |ops| - 1, 1
  {
    var n := |ops| - 1;
    var front, m := ops[..n], mask[..n];
    PrefixKeeps(ops, mask, name, n);
    if y' == name {
      assert forall i :: 0 <= i < n ==> mask[i];
      KeepAll(front, m);
    } else {
      forall i | 0 <= i < n ensures !Missed(front, m, i, y') {
        if Missed(front, m, i, y') { MissedLater(ops, mask, i, y, y'); }
      }
      TracesAlike(front, m, name, y');
    }
  }

  /** Some other rename takes the node under `o` away. */
  ghost predicate Taken(ops: seq<Op>, o: string, name: string) {
    exists k :: 0 <= k < |ops| && ops[k].kind == Rename && ops[k].oldName == o && ops[k].name != name
  }

  /** What is left under a name under which nothing is done. */
  lemma {:induction false} FinalUntouched(ops: seq<Op>, mask: seq<bool>, o: string, name: string)
    requires DropsOn(ops, mask, name) && forall i :: 0 <= i < |ops| && mask[i] ==> ops[i].name != o
    requires DropsRenames(ops, mask, name)
    ensures Final(Keep(ops, mask), o) == if Taken(ops, o, name) then Gone else Was(o)
    decreases |ops|
  {
    if ops != [] {
      hide Keep, Final, Taken;
      var n := |ops| - 1;
      var front, op, m := ops[..n], ops[n], mask[..n];
      KeepLast(ops, mask);
      FinalUntouched(front, m, o, name);
      TakenLast(ops, o, name);
      if mask[n] {
        LastFinal(Keep(front, m), op, o);
      } else {
        assert Keep(front, m) + [] == Keep(front, m);
      }
    } else {
      assert Keep(ops, mask) == [];
    }
  }

  lemma TakenLast(ops: seq<Op>, o: string, name: string)
    requires ops != []
    ensures var op := ops[|ops| - 1];
      Taken(ops, o, name) <==>
      Taken(ops[..|ops| - 1], o, name) || (op.kind == Rename && op.oldName == o && op.name != name)
  {
    var front := ops[..|ops| - 1];
    assert forall k :: 0 <= k < |front| ==> front[k] == ops[k];
  }

  /** A name that misses a rename: it should be gone, and is only if another rename took its node. */
  lemma TraceMissed(ops: seq<Op>, mask: seq<bool>, name: string, y: string, i: nat)
    requires RenamesFirst(ops) && DropsOn(ops, mask, name) && y != name && i < |ops| && Missed(ops, mask, i, y)
    requires DropsRenames(ops, mask, name)
    ensures Final(ops, y) == Gone
    ensures Final(Keep(ops, mask), y) == if Taken(ops[..i], ops[i].oldName, name) then Gone else Was(ops[i].oldName)
  {
    hide Keep, Final, Carried;
    var o := ops[i].oldName;
    var before, after := ops[..i], ops[i+1..];
    assert ops == ops[..i+1] + after && mask == mask[..i+1] + mask[i+1..] && ops[..i+1] == before + [ops[i]];
    CarriedIs(after, o, y);
    FinalConcat(ops[..i+1], after, y);
    LastFinal(before, ops[i], o);
    PrefixKeeps(ops, mask, name, i + 1);
    NoneMissedLater(after, mask[i+1..], o, y);
    TracesAlike(after, mask[i+1..], name, y);
    KeepConcat(ops[..i+1], after, mask[..i+1], mask[i+1..]);
    FinalConcat(Keep(ops[..i+1], mask[..i+1]), Keep(after, mask[i+1..]), y);
    KeepLast(ops[..i+1], mask[..i+1]);
    assert ops[..i+1][..i] == before && mask[..i+1][..i] == mask[..i];
    assert Keep(before, mask[..i]) + [] == Keep(before, mask[..i]);
    assert DropsOn(before, mask[..i], name) by { PrefixKeeps(ops, mask, name, i); }
    assert forall k :: 0 <= k < i ==> before[k] == ops[k] && mask[..i][k] == mask[k];
    FinalUntouched(before, mask[..i], o, name);
  }

  /** If a node is carried through to `y`, then no rename after it is missed by `y`. */
  lemma NoneMissedLater(ops: seq<Op>, mask: seq<bool>, o: string, y: string)
    requires |mask| == |ops| && Carried(ops, o) == At(y)
    ensures forall i :: 0 <= i < |ops| ==> !Missed(ops, mask, i, y)
  {
    forall i | 0 <= i < |ops| ensures !Missed(ops, mask, i, y) {
      if Missed(ops, mask, i, y) {
        CarriedIs(ops, o, y);
        CarriedIs(ops[i+1..], ops[i].oldName, y);
        assert ops == ops[..i+1] + ops[i+1..] && ops[..i+1] == ops[..i] + [ops[i]];
        FinalConcat(ops[..i+1], ops[i+1..], y);
        LastFinal(ops[..i], ops[i], ops[i].oldName);
      }
    }
  }

  // ----- stacking one more -----

  /**
  A pending rename to `name` took a node away that, with the rename forgotten, would end up
  under a name that stays.
  */
  ghost predicate Reappears(ops: seq<Op>, i: nat, name: string, overwritten: set<string>)
    requires i < |ops|
  {
    && ops[i].kind == Rename && ops[i].name == name
    && Carried(ops[i+1..], ops[i].oldName).At? && Carried(ops[i+1..], ops[i].oldName).name !in overwritten
    && !Taken(ops[..i], ops[i].oldName, name)
  }

  ghost predicate NoneReappears(ops: seq<Op>, name: string, overwritten: set<string>) {
    forall i :: 0 <= i < |ops| ==> !Reappears(ops, i, name, overwritten)
  }

  /** The queue leaves under a name what was there, or nothing because a rename that stays queued took it. */
  ghost predicate LeavesName(ops: seq<Op>, name: string) {
    Final(ops, name) == if Taken(ops, name, name) then Gone else Was(name)
  }

  /** When an operation can be stacked without changing what the queue means, from the queue before it. */
  ghost predicate KeepsMeaning(ops: seq<Op>, op: Op) {
    match op.kind
    case Add => true
    case ReadAhead => true
    case Del => NoneReappears(ops, op.name, {op.name})
    case Rename =>
      && NoneReappears(ops, op.oldName, {op.oldName, op.name})
      && (op.name != op.oldName ==> LeavesName(ops, op.oldName))
  }

  ghost predicate AlikeOutside(a: seq<Op>, b: seq<Op>, names: set<string>) {
    forall y: string :: y !in names ==> Final(a, y) == Final(b, y)
  }

  /** A mask that drops every rename to a name: other names trace alike exactly if none reappears. */
  lemma AlikeIff(ops: seq<Op>, mask: seq<bool>, name: string, overwritten: set<string>)
    requires RenamesFirst(ops) && DropsOn(ops, mask, name) && name in overwritten
    requires DropsRenames(ops, mask, name)
    ensures AlikeOutside(Keep(ops, mask), ops, overwritten) <==> NoneReappears(ops, name, overwritten)
  {
    hide Keep, Final, Carried, RenamesFirst, Taken;
    if NoneReappears(ops, name, overwritten) {
      forall y | y !in overwritten ensures Final(Keep(ops, mask), y) == Final(ops, y) {
        if i :| 0 <= i < |ops| && Missed(ops, mask, i, y) {
          TraceMissed(ops, mask, name, y, i);
          assert !Reappears(ops, i, name, overwritten);
        } else {
          TracesAlike(ops, mask, name, y);
        }
      }
    } else {
      var i :| 0 <= i < |ops| && Reappears(ops, i, name, overwritten);
      var y := Carried(ops[i+1..], ops[i].oldName).name;
      assert Missed(ops, mask, i, y);
      TraceMissed(ops, mask, name, y, i);
    }
  }

  lemma {:induction false} MaskForDel(kept: seq<Op>, rest: seq<Op>, name: string) returns (mask: seq<bool>)
    ensures DropsOn(rest, mask, name) && DroppedForDel(kept, rest, name) == kept + Keep(rest, mask)
    ensures DropsRenames(rest, mask, name)
    decreases |rest|
  {
    hide Keep, DropsOn, DroppedForDel;
    DroppedStep(kept, rest, name);
    if OnlyDels(kept + rest) || rest == [] {
      mask := seq(|rest|, _ => true);
      KeepAll(rest, mask);
      assert DropsOn(rest, mask, name) by { NoneDropped(rest, mask, name); }
      assert forall i :: 0 <= i < |rest| ==> rest[i] == (kept + rest)[|kept| + i];
    } else {
      var keeps := rest[0].name != name;
      var m := MaskForDel(if keeps then kept + [rest[0]] else kept, rest[1..], name);
      mask := OneMoreMasked(rest, keeps, m, name);
      KeepFirst(rest, mask);
      if keeps {
        Associative(kept, [rest[0]], Keep(rest[1..], m));
      }
    }
  }

  lemma NoneDropped(ops: seq<Op>, mask: seq<bool>, name: string)
    requires |mask| == |ops| && forall i :: 0 <= i < |ops| ==> mask[i]
    ensures DropsOn(ops, mask, name)
  {
  }

  lemma OneMoreMasked(ops: seq<Op>, keeps: bool, m: seq<bool>, name: string) returns (mask: seq<bool>)
    requires ops != [] && (keeps <==> ops[0].name != name) && DropsOn(ops[1..], m, name)
    requires DropsRenames(ops[1..], m, name)
    ensures mask == [keeps] + m && mask[1..] == m && DropsOn(ops, mask, name)
    ensures DropsRenames(ops, mask, name)
  {
    mask := [keeps] + m;
    assert forall i :: 0 < i < |ops| ==> ops[i] == ops[1..][i-1] && mask[i] == m[i-1];
  }

  lemma {:induction false} MaskForAdd(ops: seq<Op>, name: string) returns (mask: seq<bool>)
    ensures DropsOn(ops, mask, name) && DroppedForAdd(ops, name) == Keep(ops, mask)
    ensures forall i :: 0 <= i < |ops| && ops[i].kind == Rename ==> mask[i]
    decreases |ops|
  {
    if ops == [] {
      mask := [];
    } else if ops[0].kind == Del && ops[0].name == name {
      mask := [false] + seq(|ops| - 1, _ => true);
      KeepAll(ops[1..], mask[1..]);
      assert [] + ops[1..] == ops[1..];
    } else {
      var m := MaskForAdd(ops[1..], name);
      mask := [true] + m;
      assert mask[1..] == m;
    }
  }

  lemma {:induction false} MaskForRename(ops: seq<Op>, oldName: string) returns (mask: seq<bool>)
    ensures |mask| == |ops| && DroppedForRename(ops, oldName) == Keep(ops, mask)
    ensures forall i :: 0 <= i < |ops| ==> (mask[i] <==> ops[i].name != oldName)
    decreases |ops|
  {
    mask := [];
    if ops != [] {
      var m := MaskForRename(ops[1..], oldName);
      mask := [ops[0].name != oldName] + m;
      assert mask[1..] == m;
    }
  }

  lemma AddIsFaithful(ops: seq<Op>, op: Op)
    requires RenamesFirst(ops) && op.kind == Add
    ensures SameFinals(Stacked(ops, op), ops + [Queued(op)])
  {
    hide Final, Keep, RenamesFirst;
    var mask := MaskForAdd(ops, op.name);
    forall x: string ensures Final(Stacked(ops, op), x) == Final(ops + [Queued(op)], x) {
      LastFinal(Keep(ops, mask), Queued(op), x);
      LastFinal(ops, Queued(op), x);
      if x != op.name { TracesAlike(ops, mask, op.name, x); }
    }
  }

  lemma DelIsFaithfulIff(ops: seq<Op>, op: Op)
    requires RenamesFirst(ops) && op.kind == Del
    ensures SameFinals(Stacked(ops, op), ops + [Queued(op)]) <==>
            NoneReappears(ops, op.name, {op.name})
  {
    hide Final, Keep, RenamesFirst, NoneReappears;
    var mask := MaskForDel([], ops, op.name);
    assert [] + Keep(ops, mask) == Keep(ops, mask);
    AlikeIff(ops, mask, op.name, {op.name});
    RemovedFrom(Keep(ops, mask), ops, Queued(op));
  }

  lemma RemovedFrom(a: seq<Op>, b: seq<Op>, op: Op)
    requires op.kind == Del
    ensures SameFinals(a + [op], b + [op]) <==> AlikeOutside(a, b, {op.name})
  {
    hide Final;
    forall x: string ensures Final(a + [op], x) == Final(b + [op], x) <==> x == op.name || Final(a, x) == Final(b, x) {
      LastFinal(a, op, x);
      LastFinal(b, op, x);
    }
    if SameFinals(a + [op], b + [op]) {
      forall y: string | y !in {op.name} ensures Final(a, y) == Final(b, y) {
        assert Final(a + [op], y) == Final(b + [op], y);
      }
    }
  }

  lemma RenameIsFaithfulIff(ops: seq<Op>, op: Op)
    requires RenamesFirst(ops) && op.kind == Rename
    ensures SameFinals(Stacked(ops, op), ops + [Queued(op)]) <==> KeepsMeaning(ops, op)
  {
    hide Final, Keep, RenamesFirst, NoneReappears, Taken;
    var o, n := op.oldName, op.name;
    var mask := MaskForRename(ops, o);
    var kept := Keep(ops, mask);
    AlikeIff(ops, mask, o, {o, n});
    FinalUntouched(ops, mask, o, o);
    RenamedFrom(kept, ops, Queued(op));
  }

  lemma RenamedFrom(a: seq<Op>, b: seq<Op>, op: Op)
    requires op.kind == Rename
    ensures SameFinals(a + [op], b + [op]) <==>
            AlikeOutside(a, b, {op.oldName, op.name})
            && (op.name != op.oldName ==> Final(a, op.oldName) == Final(b, op.oldName))
  {
    hide Final;
    var o, n := op.oldName, op.name;
    forall x: string ensures Final(a + [op], x) == Final(b + [op], x) <==>
                             (x == o || var y := if x == n then o else x; Final(a, y) == Final(b, y)) {
      LastFinal(a, op, x);
      LastFinal(b, op, x);
    }
    if SameFinals(a + [op], b + [op]) {
      assert Final(a + [op], n) == Final(b + [op], n);
      forall y: string | y !in {o, n} ensures Final(a, y) == Final(b, y) {
        assert Final(a + [op], y) == Final(b + [op], y);
      }
    }
  }

  /**
  Stacking one more operation does to every directory what queueing it without dropping any does,
  exactly when the queue before it meets the condition.
  */
  lemma StackingFaithfulIff(ops: seq<Op>, op: Op)
    requires RenamesFirst(ops) && NoWarnings(ops) && !op.warn
    ensures SameEffect(Stacked(ops, op), ops + [Queued(op)]) <==> KeepsMeaning(ops, op)
  {
    hide Final, RenamesFirst, NoneReappears, Stacked;
    StackedNoWarnings(ops, op);
    SameEffectByTraces(Stacked(ops, op), ops + [Queued(op)]);
    match op.kind
    case Add => AddIsFaithful(ops, op);
    case Del => DelIsFaithfulIff(ops, op);
    case Rename => RenameIsFaithfulIff(ops, op);
    case ReadAhead => NothingDropped(ops, op);
  }

  lemma NothingDropped(ops: seq<Op>, op: Op)
    requires op.kind == ReadAhead
    ensures Stacked(ops, op) == ops + [Queued(op)]
  {
  }

  // ----- whole sessions -----

  lemma {:induction false} KeepIsPart(ops: seq<Op>, mask: seq<bool>, x: Op)
    requires |mask| == |ops| && x in Keep(ops, mask)
    ensures exists i :: 0 <= i < |ops| && mask[i] && ops[i] == x
    decreases |ops|
  {
    if x in Keep(ops[1..], mask[1..]) {
      KeepIsPart(ops[1..], mask[1..], x);
      var i :| 0 <= i < |ops[1..]| && mask[1..][i] && ops[1..][i] == x;
      assert mask[i+1] && ops[i+1] == x;
    } else {
      assert mask[0] && ops[0] == x;
    }
  }

  lemma {:induction false} KeepRenamesFirst(ops: seq<Op>, mask: seq<bool>)
    requires |mask| == |ops| && RenamesFirst(ops)
    ensures RenamesFirst(Keep(ops, mask))
    decreases |ops|
  {
    if ops != [] {
      var n := |ops| - 1;
      var front, op, m := ops[..n], ops[n], mask[..n];
      KeepLast(ops, mask);
      KeepRenamesFirst(front, m);
      if mask[n] && op.kind == Rename {
        forall x | x in Keep(front, m) ensures x.name != op.oldName { KeepIsPart(front, m, x); }
      }
    }
  }

  /** What is kept of the queue, as a mask; a rename keeps nothing under its old name. */
  lemma StackedMask(ops: seq<Op>, op: Op) returns (mask: seq<bool>)
    ensures |mask| == |ops| && Stacked(ops, op) == Keep(ops, mask) + [Queued(op)]
    ensures op.kind == Rename ==> forall i :: 0 <= i < |ops| && mask[i] ==> ops[i].name != op.oldName
  {
    match op.kind
    case Add => mask := MaskForAdd(ops, op.name);
    case Del =>
      mask := MaskForDel([], ops, op.name);
      assert [] + Keep(ops, mask) == Keep(ops, mask);
    case Rename => mask := MaskForRename(ops, op.oldName);
    case ReadAhead =>
      mask := seq(|ops|, _ => true);
      KeepAll(ops, mask);
  }

  lemma StackedRenamesFirst(ops: seq<Op>, op: Op)
    requires RenamesFirst(ops)
    ensures RenamesFirst(Stacked(ops, op))
  {
    hide Stacked, Keep;
    var mask := StackedMask(ops, op);
    KeepRenamesFirst(ops, mask);
    if op.kind == Rename {
      forall x | x in Keep(ops, mask) ensures x.name != op.oldName { KeepIsPart(ops, mask, x); }
    }
  }

  lemma StackedIsPart(ops: seq<Op>, op: Op, x: Op)
    requires x in Stacked(ops, op)
    ensures x in ops || x == Queued(op)
  {
    hide Stacked, Keep;
    var mask := StackedMask(ops, op);
    if x in Keep(ops, mask) { KeepIsPart(ops, mask, x); }
  }

  lemma StackedNoWarnings(ops: seq<Op>, op: Op)
    requires NoWarnings(ops) && !op.warn
    ensures NoWarnings(Stacked(ops, op)) && NoWarnings(ops + [Queued(op)])
  {
    hide Stacked;
    var s := Stacked(ops, op);
    forall i | 0 <= i < |s| ensures !s[i].warn { StackedIsPart(ops, op, s[i]); }
  }

  /** No step of the session drops anything that is missed. */
  ghost predicate KeptThroughout(requests: seq<Op>) {
    forall i :: 0 <= i < |requests| ==> KeepsMeaning(Session(requests[..i]), requests[i])
  }

  lemma KeptSoFar(requests: seq<Op>)
    requires requests != [] && KeptThroughout(requests)
    ensures var n := |requests| - 1;
      KeptThroughout(requests[..n]) && KeepsMeaning(Session(requests[..n]), requests[n])
  {
    var n := |requests| - 1;
    assert forall i :: 0 <= i < n ==> requests[..n][..i] == requests[..i];
  }

  lemma QueuedDoesSame(m: Nodes, op: Op)
    requires !op.warn
    ensures Effect(m, Queued(op)) == Effect(m, op)
  {
  }

  /** Every queue comes about so that nothing done under a name stands before a rename away from it. */
  lemma {:induction false} SessionRenamesFirst(requests: seq<Op>)
    ensures RenamesFirst(Session(requests))
    decreases |requests|
  {
    if requests != [] {
      hide Stacked, RenamesFirst;
      var n := |requests| - 1;
      SessionRenamesFirst(requests[..n]);
      StackedRenamesFirst(Session(requests[..n]), requests[n]);
    }
  }

  lemma SessionNoWarnings(requests: seq<Op>)
    requires NoWarnings(requests)
    ensures NoWarnings(Session(requests))
  {
    hide Session;
    var s := Session(requests);
    forall i | 0 <= i < |s| ensures !s[i].warn { SessionIsPart(requests, s[i]); }
  }

  /** A session, renames included, keeps its meaning as long as every step meets the condition. */
  lemma {:induction false} SessionKeepsMeaning(requests: seq<Op>)
    requires NoWarnings(requests) && KeptThroughout(requests)
    ensures SameEffect(Session(requests), requests)
    decreases |requests|
  {
    hide Session, KeptThroughout, SameEffect, KeepsMeaning;
    if requests == [] {
      EmptySession();
    } else {
      var n := |requests| - 1;
      var front, op := requests[..n], requests[n];
      KeptSoFar(requests);
      SessionKeepsMeaning(front);
      SessionStepKeeps(front, op);
      assert front + [op] == requests;
    }
  }

  lemma EmptySession()
    ensures SameEffect(Session([]), [])
  {
  }

  lemma SessionStepKeeps(front: seq<Op>, op: Op)
    requires NoWarnings(front) && !op.warn && SameEffect(Session(front), front) && KeepsMeaning(Session(front), op)
    ensures SameEffect(Session(front + [op]), front + [op])
  {
    hide Stacked, RenamesFirst, KeepsMeaning, Session, SameEffect;
    SessionRenamesFirst(front);
    SessionNoWarnings(front);
    StackingFaithfulIff(Session(front), op);
    SessionStep(front, op);
    SameWithOneMore(Session(front), front, Stacked(Session(front), op), op);
  }

  lemma SameWithOneMore(a: seq<Op>, b: seq<Op>, s: seq<Op>, op: Op)
    requires SameEffect(a, b) && SameEffect(s, a + [Queued(op)]) && !op.warn
    ensures SameEffect(s, b + [op])
  {
    hide Replay, Effect;
    forall m: Nodes ensures Replay(m, s) == Replay(m, b + [op]) {
      ReplayOneMore(m, a, Queued(op));
      ReplayOneMore(m, b, op);
      QueuedDoesSame(Replay(m, b), op);
    }
  }

  lemma SessionStep(front: seq<Op>, op: Op)
    ensures Session(front + [op]) == Stacked(Session(front), op)
  {
    assert (front + [op])[..|front|] == front;
  }

  lemma {:induction false} SessionIsPart(requests: seq<Op>, x: Op)
    requires x in Session(requests)
    ensures exists i :: 0 <= i < |requests| && x == Queued(requests[i])
    decreases |requests|
  {
    hide Stacked;
    var n := |requests| - 1;
    StackedIsPart(Session(requests[..n]), requests[n], x);
    if x in Session(requests[..n]) {
      SessionIsPart(requests[..n], x);
    }
  }

  /** What a flush leaves after such a session, when nothing is left to udev. */
  lemma FlushedSession(requests: seq<Op>, m: Nodes)
    requires NoWarnings(requests) && KeptThroughout(requests)
    requires forall i :: 0 <= i < |requests| ==> !requests[i].relyOnUdev
    ensures Replay(m, Executed(Session(requests))) == Replay(m, requests)
  {
    hide Replay, Session, Executed, KeptThroughout;
    SessionKeepsMeaning(requests);
    var s := Session(requests);
    forall i | 0 <= i < |s| ensures !s[i].relyOnUdev { SessionIsPart(requests, s[i]); }
    AllExecuted(s);
  }

  // ----- what is dropped, and what is carried out -----

  /** The operations on other names, in order. */
  function Elsewhere(ops: seq<Op>, name: string): seq<Op> {
    if ops == [] then [] else (if ops[0].name == name then [] else [ops[0]]) + Elsewhere(ops[1..], name)
  }

  lemma {:induction false} ElsewhereConcat(a: seq<Op>, b: seq<Op>, name: string)
    ensures Elsewhere(a + b, name) == Elsewhere(a, name) + Elsewhere(b, name)
  {
    if a == [] {
      assert a + b == b;
    } else {
      TailOfConcat(a, b);
      ElsewhereConcat(a[1..], b, name);
    }
  }

  lemma ElsewhereOne(op: Op, name: string)
    ensures Elsewhere([op], name) == if op.name == name then [] else [op]
  {
    assert [op][1..] == [];
  }

  /** Before a rename exactly the operations on its old name go. */
  lemma {:induction false} RenameDrops(ops: seq<Op>, oldName: string)
    ensures DroppedForRename(ops, oldName) == Elsewhere(ops, oldName)
  {
    if ops != [] { RenameDrops(ops[1..], oldName); }
  }

  lemma ElsewhereStep(kept: seq<Op>, rest: seq<Op>, name: string)
    requires rest != []
    ensures rest[0].name == name ==> Elsewhere(kept + rest, name) == Elsewhere(kept + rest[1..], name)
    ensures kept + rest == kept + [rest[0]] + rest[1..]
  {
    hide Elsewhere;
    var op, more := rest[0], rest[1..];
    assert rest == [op] + more;
    Associative(kept, [op], more);
    ElsewhereConcat(kept + [op], more, name);
    ElsewhereConcat(kept, [op], name);
    ElsewhereOne(op, name);
    ElsewhereConcat(kept, more, name);
    if op.name == name {
      assert Elsewhere(kept, name) + [] == Elsewhere(kept, name);
    }
  }

  lemma DroppedStep(kept: seq<Op>, rest: seq<Op>, name: string)
    ensures DroppedForDel(kept, rest, name) ==
            if OnlyDels(kept + rest) || rest == [] then kept + rest
            else DroppedForDel(if rest[0].name == name then kept else kept + [rest[0]], rest[1..], name)
  {
  }

  /**
  Before a removal operations on other names stay, in order; of those on its own name only
  removals stay, and not even they as long as anything but a removal is queued.
  */
  lemma {:induction false} DelDrops(kept: seq<Op>, rest: seq<Op>, name: string)
    requires Elsewhere(kept, name) == kept
    ensures var left := DroppedForDel(kept, rest, name);
      && Elsewhere(left, name) == Elsewhere(kept + rest, name)
      && (left == Elsewhere(kept + rest, name) || OnlyDels(left))
    decreases |rest|
  {
    hide Elsewhere, DroppedForDel;
    DroppedStep(kept, rest, name);
    if OnlyDels(kept + rest) {
    } else if rest == [] {
      assert kept + rest == kept;
    } else {
      ElsewhereStep(kept, rest, name);
      if rest[0].name == name {
        DelDrops(kept, rest[1..], name);
      } else {
        ElsewhereConcat(kept, [rest[0]], name);
        ElsewhereOne(rest[0], name);
        DelDrops(kept + [rest[0]], rest[1..], name);
      }
    }
  }

  lemma StackingDelDrops(ops: seq<Op>, op: Op)
    requires op.kind == Del
    ensures var left := Stacked(ops, op)[..|Stacked(ops, op)| - 1];
      Elsewhere(left, op.name) == Elsewhere(ops, op.name) && (left == Elsewhere(ops, op.name) || OnlyDels(left))
  {
    DelDrops([], ops, op.name);
    assert [] + ops == ops;
    var left := DroppedForDel([], ops, op.name);
    assert (left + [Queued(op)])[..|left|] == left;
  }

  lemma {:induction false} ExecutedConcat(a: seq<Op>, b: seq<Op>)
    ensures Executed(a + b) == Executed(a) + Executed(b)
  {
    if a == [] {
      assert a + b == b;
    } else {
      TailOfConcat(a, b);
      ExecutedConcat(a[1..], b);
    }
  }

  /**
  A read-ahead setting is carried out by the program whatever it was asked, and drops nothing; any
  other operation is carried out unless it is left to udev.
  */
  lemma StackedIsExecuted(ops: seq<Op>, op: Op)
    ensures op.kind == ReadAhead ==>
            Executed(Stacked(ops, op)) == Executed(ops) + [op.(relyOnUdev := false, warn := false)]
    ensures op.kind != ReadAhead && !op.relyOnUdev ==>
            Executed(Stacked(ops, op)) == Executed(Stacked(ops, op)[..|Stacked(ops, op)| - 1]) + [op]
    ensures op.kind != ReadAhead && op.relyOnUdev ==>
            Executed(Stacked(ops, op)) == Executed(Stacked(ops, op)[..|Stacked(ops, op)| - 1])
  {
    var s := Stacked(ops, op);
    var last := s[|s| - 1];
    assert s == s[..|s| - 1] + [last] && [last][1..] == [];
    ExecutedConcat(s[..|s| - 1], [last]);
    if op.kind == ReadAhead { assert s[..|s| - 1] == ops; }
  }

  /** A rename that finds its new name in place, as udev may have left it, only takes the old one away. */
  lemma RenameMeansEither(m: Nodes, op: Op)
    requires op.kind == Rename && op.name != op.oldName
    ensures var n := Effect(m, op);
      && op.oldName !in n
      && (op.name in n <==> op.oldName in m || (op.warn && op.name in m))
      && (op.name in n ==> n[op.name] == if op.warn && op.name in m then m[op.name] else m[op.oldName])
      && forall x :: x != op.name && x != op.oldName ==> NodeAt(n, x) == NodeAt(m, x)
  {
  }

  lemma UnnamedEffect(m: Nodes, op: Op, x: string)
    requires x != op.name && (op.kind == Rename ==> x != op.oldName)
    ensures NodeAt(Effect(m, op), x) == NodeAt(m, x)
  {
  }

  /** What is left to udev is not touched: a name all of whose operations are keeps its node. */
  lemma {:induction false} LeftToUdev(m: Nodes, ops: seq<Op>, x: string)
    requires forall i :: 0 <= i < |ops| && (ops[i].name == x || (ops[i].kind == Rename && ops[i].oldName == x)) ==>
               ops[i].relyOnUdev
    ensures NodeAt(Replay(m, Executed(ops)), x) == NodeAt(m, x)
    decreases |ops|
  {
    if ops == [] {
      NothingExecuted(m);
    } else {
      hide Replay, Executed, Effect;
      FirstExecuted(m, ops);
      var next := if ops[0].relyOnUdev then m else Effect(m, ops[0]);
      if !ops[0].relyOnUdev { UnnamedEffect(m, ops[0], x); }
      LeftToUdev(next, ops[1..], x);
    }
  }
}
