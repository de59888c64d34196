/**
The udev cookie protocol: processes attach device-mapper tasks to a notification
semaphore, udev rules report each task's completion, and one process waits for all of them.

Every system call on a semaphore is one atomic step of a transition system, and the
results hold after every interleaving of such steps.
*/
module UdevCookie {

  // ----- cookies and event numbers -----

  const DM_COOKIE_MAGIC: bv32 := 0x0D4D
  const DM_UDEV_FLAGS_MASK: bv32 := 0xFFFF0000

  datatype Cookie = Cookie(bits: bv32)

  /** A cookie made from the random 16 bits `base`. */
  function CookieOf(base: bv16): Cookie {
    Cookie((DM_COOKIE_MAGIC << 16) | (base as bv32))
  }

  function FlagBits(flags: bv16): bv32 {
    (flags as bv32) << 16
  }

  function WithBase(eventNr: bv32, cookie: Cookie): bv32 {
    eventNr | (!DM_UDEV_FLAGS_MASK & cookie.bits)
  }

  /** The event number sent to the kernel with a task. */
  function EventNr(cookie: Cookie, flags: bv16): bv32 {
    WithBase(FlagBits(flags), cookie)
  }

  /** The base that `_udevcomplete` finds in an event number. */
  function BaseOf(eventNr: bv32): bv32 {
    eventNr & !DM_UDEV_FLAGS_MASK
  }

  /** The cookie that `_udevcomplete` rebuilds. */
  function CompletionCookie(eventNr: bv32): Cookie {
    Cookie(BaseOf(eventNr) | (DM_COOKIE_MAGIC << 16))
  }

  /** What `_udevflags` reads. */
  function FlagsOf(eventNr: bv32): bv32 {
    eventNr >> 16
  }

  predicate RightPrefix(cookie: Cookie) {
    cookie.bits >> 16 == DM_COOKIE_MAGIC
  }

  /** A cookie with the right prefix whose base is not the one reserved for "no semaphore". */
  predicate IsCookie(cookie: Cookie) {
    RightPrefix(cookie) && BaseOf(cookie.bits) != 0
  }

  lemma CookieOfBase(base: bv16)
    ensures RightPrefix(CookieOf(base))
    ensures IsCookie(CookieOf(base)) <==> base != 0
  {
    assert BaseOf(CookieOf(base).bits) == base as bv32;
  }

  lemma EventBase(cookie: Cookie, flags: bv16)
    ensures BaseOf(EventNr(cookie, flags)) == BaseOf(cookie.bits)
  {
  }

  lemma EventFlags(cookie: Cookie, flags: bv16)
    ensures FlagsOf(EventNr(cookie, flags)) == flags as bv32
  {
  }

  lemma RebuiltCookie(cookie: Cookie)
    requires RightPrefix(cookie)
    ensures BaseOf(cookie.bits) | (DM_COOKIE_MAGIC << 16) == cookie.bits
  {
  }

  lemma BaseOfZero()
    ensures BaseOf(0) == 0
  {
  }

  /** A completion finds its way back to its own cookie whatever flags travelled with it. */
  lemma CompletionHitsOwnCookie(cookie: Cookie, flags: bv16)
    requires IsCookie(cookie)
    ensures CompletionCookie(EventNr(cookie, flags)) == cookie
    ensures FlagsOf(EventNr(cookie, flags)) == flags as bv32
    ensures BaseOf(EventNr(cookie, flags)) != 0 && EventNr(cookie, flags) != 0
  {
    hide EventNr, BaseOf, FlagsOf, RightPrefix;
    EventBase(cookie, flags);
    EventFlags(cookie, flags);
    RebuiltCookie(cookie);
    BaseOfZero();
  }

  // ----- the protocol as a transition system -----

  /** `Creating` is between the two system calls that make a semaphore and give it its first count. */
  datatype Phase = Creating | Open | Waiting

  datatype Semaphore = Semaphore(value: int, phase: Phase)

  /** A task that was given a cookie; `cookie` records which, apart from what its event number says. */
  datatype Task = Task(cookie: Cookie, eventNr: bv32, completed: bool)

  /** `leaks` counts increments whose caller was told that attaching failed. */
  datatype State = State(sems: map<Cookie, Semaphore>, tasks: seq<Task>, leaks: multiset<Cookie>)

  datatype Event =
    | MakeKey(base: bv16)                   // semget with IPC_CREAT | IPC_EXCL
    | SetFirst(cookie: Cookie)                // SETVAL to 1
    | DropNew(cookie: Cookie)                 // SETVAL failed
    | Attach(cookie: Cookie, flags: bv16)
    | AttachLeak(cookie: Cookie)              // incremented, then GETVAL failed
    | Complete(task: nat)                   // udev reports a task
    | StartWait(cookie: Cookie)               // the waiter's own decrement
    | Pass(cookie: Cookie)                    // waiting for zero ends, the semaphore is destroyed

  const Init := State(map[], [], multiset{})

  predicate InPhase(s: State, cookie: Cookie, phase: Phase) {
    cookie in s.sems && s.sems[cookie].phase == phase
  }

  /** A cookie is handed out once its semaphore has its first count. */
  predicate HandedOut(s: State, cookie: Cookie) {
    cookie in s.sems && s.sems[cookie].phase != Creating
  }

  predicate CanDecrement(s: State, cookie: Cookie) {
    cookie in s.sems && s.sems[cookie].value > 0
  }

  /** A report is only made for a task that was attached and has not been reported. */
  predicate Reportable(s: State, task: nat) {
    task < |s.tasks| && !s.tasks[task].completed
  }

  predicate Enabled(s: State, e: Event) {
    match e
    case MakeKey(base) => base != 0 && CookieOf(base) !in s.sems
    case SetFirst(c) => InPhase(s, c, Creating)
    case DropNew(c) => InPhase(s, c, Creating)
    case Attach(c, _) => HandedOut(s, c)
    case AttachLeak(c) => HandedOut(s, c)
    case Complete(i) => Reportable(s, i) && CanDecrement(s, CompletionCookie(s.tasks[i].eventNr))
    case StartWait(c) => InPhase(s, c, Open) && CanDecrement(s, c)
    case Pass(c) => InPhase(s, c, Waiting) && s.sems[c].value == 0
  }

  function Added(sems: map<Cookie, Semaphore>, cookie: Cookie, n: int): map<Cookie, Semaphore>
    requires cookie in sems
  {
    sems[cookie := sems[cookie].(value := sems[cookie].value + n)]
  }

  function Next(s: State, e: Event): State
    requires Enabled(s, e)
  {
    match e
    case MakeKey(base) => s.(sems := s.sems[CookieOf(base) := Semaphore(0, Creating)])
    case SetFirst(c) => s.(sems := s.sems[c := Semaphore(1, Open)])
    case DropNew(c) => s.(sems := s.sems - {c})
    case Attach(c, flags) => s.(sems := Added(s.sems, c, 1), tasks := s.tasks + [Task(c, EventNr(c, flags), false)])
    case AttachLeak(c) => s.(sems := Added(s.sems, c, 1), leaks := s.leaks + multiset{c})
    case Complete(i) =>
      s.(sems := Added(s.sems, CompletionCookie(s.tasks[i].eventNr), -1),
         tasks := s.tasks[i := s.tasks[i].(completed := true)])
    case StartWait(c) => s.(sems := s.sems[c := Semaphore(s.sems[c].value - 1, Waiting)])
    case Pass(c) => s.(sems := s.sems - {c})
  }

  /** Tasks attached to a cookie and not yet reported. */
  function Outstanding(tasks: seq<Task>, cookie: Cookie): nat {
    if tasks == [] then 0
    else (if tasks[0].cookie == cookie && !tasks[0].completed then 1 else 0) + Outstanding(tasks[1..], cookie)
  }

  lemma {:induction false} OutstandingOneMore(tasks: seq<Task>, t: Task, cookie: Cookie)
    ensures Outstanding(tasks + [t], cookie)
         == Outstanding(tasks, cookie) + if t.cookie == cookie && !t.completed then 1 else 0
  {
    if tasks == [] {
      assert [] + [t] == [t] && [t][1..] == [];
    } else {
      assert (tasks + [t])[1..] == tasks[1..] + [t];
      OutstandingOneMore(tasks[1..], t, cookie);
    }
  }

  lemma {:induction false} OutstandingReported(tasks: seq<Task>, i: nat, cookie: Cookie)
    requires i < |tasks| && !tasks[i].completed
    ensures Outstanding(tasks, cookie)
         == Outstanding(tasks[i := tasks[i].(completed := true)], cookie) + if tasks[i].cookie == cookie then 1 else 0
  {
    var after := tasks[i := tasks[i].(completed := true)];
    if i > 0 {
      assert after[1..] == tasks[1..][i-1 := tasks[i].(completed := true)];
      OutstandingReported(tasks[1..], i - 1, cookie);
    } else {
      assert after[1..] == tasks[1..];
    }
  }

  lemma {:induction false} NoneOutstanding(tasks: seq<Task>, cookie: Cookie)
    ensures Outstanding(tasks, cookie) == 0 <==>
            forall i :: 0 <= i < |tasks| && tasks[i].cookie == cookie ==> tasks[i].completed
  {
    if tasks != [] {
      NoneOutstanding(tasks[1..], cookie);
      if forall i :: 0 <= i < |tasks[1..]| && tasks[1..][i].cookie == cookie ==> tasks[1..][i].completed {
        assert forall i :: 0 < i < |tasks| ==> tasks[i] == tasks[1..][i-1];
      } else {
        var i :| 0 <= i < |tasks[1..]| && tasks[1..][i].cookie == cookie && !tasks[1..][i].completed;
        assert tasks[i+1] == tasks[1..][i];
      }
    }
  }

  /** What a semaphore counts: outstanding tasks, leaked increments, and one until waiting starts. */
  ghost predicate Counted(s: State, c: Cookie) {
    if c !in s.sems then Outstanding(s.tasks, c) == 0 && s.leaks[c] == 0
    else
      && s.sems[c].value == Outstanding(s.tasks, c) + s.leaks[c] + (if s.sems[c].phase == Open then 1 else 0)
      && (s.sems[c].phase == Creating ==> s.sems[c].value == 0)
  }

  ghost predicate OwnCookies(s: State) {
    forall i :: 0 <= i < |s.tasks| ==> CompletionCookie(s.tasks[i].eventNr) == s.tasks[i].cookie
  }

  ghost predicate Inv(s: State) {
    && (forall c :: Counted(s, c))
    && (forall c :: c in s.sems ==> IsCookie(c))
    && OwnCookies(s)
  }

  lemma StepKeepsCount(s: State, e: Event, c: Cookie)
    requires Inv(s) && Enabled(s, e)
    ensures Counted(Next(s, e), c)
  {
    hide CookieOf, EventNr, CompletionCookie, IsCookie;
    assert Counted(s, c);
    match e {
      case Attach(d, flags) => OutstandingOneMore(s.tasks, Task(d, EventNr(d, flags), false), c);
      case Complete(i) => OutstandingReported(s.tasks, i, c);
      case _ =>
    }
  }

  lemma StepKeepsInv(s: State, e: Event)
    requires Inv(s) && Enabled(s, e)
    ensures Inv(Next(s, e))
  {
    hide CookieOf, EventNr, CompletionCookie, IsCookie, Counted;
    forall c ensures Counted(Next(s, e), c) { StepKeepsCount(s, e, c); }
    match e {
      case MakeKey(base) => CookieOfBase(base);
      case Attach(d, flags) => CompletionHitsOwnCookie(d, flags);
      case _ =>
    }
  }

  // ----- every run -----

  ghost predicate Runs(s: State, events: seq<Event>)
    decreases |events|
  {
    events == [] || (Enabled(s, events[0]) && Runs(Next(s, events[0]), events[1..]))
  }

  ghost function After(s: State, events: seq<Event>): State
    requires Runs(s, events)
    decreases |events|
  {
    if events == [] then s else After(Next(s, events[0]), events[1..])
  }

  lemma InitInv()
    ensures Inv(Init)
  {
  }

  lemma {:induction false} RunKeepsInv(s: State, events: seq<Event>)
    requires Inv(s) && Runs(s, events)
    ensures Inv(After(s, events))
    decreases |events|
  {
    if events != [] {
      hide Inv, Enabled, Next;
      StepKeepsInv(s, events[0]);
      RunKeepsInv(Next(s, events[0]), events[1..]);
    }
  }

  lemma {:induction false} RunsConcat(s: State, a: seq<Event>, b: seq<Event>)
    ensures Runs(s, a + b) <==> Runs(s, a) && Runs(After(s, a), b)
    ensures Runs(s, a + b) ==> After(s, a + b) == After(After(s, a), b)
    decreases |a|
  {
    if a == [] {
      assert a + b == b;
    } else {
      hide Enabled, Next;
      assert (a + b)[1..] == a[1..] + b;
      if Enabled(s, a[0]) { RunsConcat(Next(s, a[0]), a[1..], b); }
    }
  }

  /** Every semaphore in every reachable state counts what it should. */
  lemma EveryRunCounts(events: seq<Event>)
    requires Runs(Init, events)
    ensures Inv(After(Init, events))
  {
    InitInv();
    RunKeepsInv(Init, events);
  }

  /** The report of an attached task always finds a semaphore it can decrement. */
  lemma ReportNeverFails(events: seq<Event>, task: nat)
    requires Runs(Init, events) && Reportable(After(Init, events), task)
    ensures Enabled(After(Init, events), Complete(task))
  {
    EveryRunCounts(events);
    OutstandingTaskCanReport(After(Init, events), task);
  }

  lemma OutstandingTaskCanReport(s: State, task: nat)
    requires Inv(s) && Reportable(s, task)
    ensures Enabled(s, Complete(task))
  {
    var c := s.tasks[task].cookie;
    assert Counted(s, c) && CompletionCookie(s.tasks[task].eventNr) == c;
    NoneOutstanding(s.tasks, c);
  }

  /** The count stays above zero from the moment a cookie is handed out until its waiter starts. */
  lemma ZeroOnlyWhileWaiting(events: seq<Event>, cookie: Cookie)
    requires Runs(Init, events) && HandedOut(After(Init, events), cookie)
    ensures After(Init, events).sems[cookie].value == 0 ==> InPhase(After(Init, events), cookie, Waiting)
  {
    EveryRunCounts(events);
    assert Counted(After(Init, events), cookie);
  }

  /** So the waiter's own decrement cannot fail either. */
  lemma WaiterCanStart(events: seq<Event>, cookie: Cookie)
    requires Runs(Init, events) && InPhase(After(Init, events), cookie, Open)
    ensures Enabled(After(Init, events), StartWait(cookie))
  {
    EveryRunCounts(events);
    assert Counted(After(Init, events), cookie);
  }

  ghost predicate AllReported(s: State, cookie: Cookie) {
    forall i :: 0 <= i < |s.tasks| && s.tasks[i].cookie == cookie ==> s.tasks[i].completed
  }

  /** The waiter gets through exactly when every task attached to its cookie has been reported and nothing leaked. */
  lemma PassIffAllReported(events: seq<Event>, cookie: Cookie)
    requires Runs(Init, events) && InPhase(After(Init, events), cookie, Waiting)
    ensures Enabled(After(Init, events), Pass(cookie))
       <==> AllReported(After(Init, events), cookie) && After(Init, events).leaks[cookie] == 0
  {
    EveryRunCounts(events);
    var s := After(Init, events);
    assert Counted(s, cookie);
    NoneOutstanding(s.tasks, cookie);
  }

  /** Tasks are never forgotten, and only a report completes one. */
  lemma {:induction false} CompletedByReport(s: State, events: seq<Event>, task: nat)
    requires Runs(s, events) && Reportable(s, task)
    ensures |s.tasks| <= |After(s, events).tasks| && After(s, events).tasks[task].cookie == s.tasks[task].cookie
    ensures After(s, events).tasks[task].completed ==> Complete(task) in events
    decreases |events|
  {
    if events != [] {
      var t := Next(s, events[0]);
      assert |s.tasks| <= |t.tasks| && t.tasks[task].cookie == s.tasks[task].cookie;
      if events[0] != Complete(task) {
        CompletedByReport(t, events[1..], task);
      } else {
        TasksStay(t, events[1..], task);
      }
    }
  }

  lemma {:induction false} TasksStay(s: State, events: seq<Event>, task: nat)
    requires Runs(s, events) && task < |s.tasks|
    ensures |s.tasks| <= |After(s, events).tasks| && After(s, events).tasks[task].cookie == s.tasks[task].cookie
    decreases |events|
  {
    if events != [] {
      TasksStay(Next(s, events[0]), events[1..], task);
    }
  }

  /** In any run, between attaching a task and the waiter getting through, that task was reported. */
  lemma WaiterSeesEveryReport(before: seq<Event>, cookie: Cookie, flags: bv16, rest: seq<Event>)
    requires Runs(Init, before + ([Attach(cookie, flags)] + (rest + [Pass(cookie)])))
    ensures Runs(Init, before) && Complete(|After(Init, before).tasks|) in rest
  {
    hide Inv, Counted;
    var tail := rest + [Pass(cookie)];
    RunsConcat(Init, before, [Attach(cookie, flags)] + tail);
    var s := After(Init, before);
    assert ([Attach(cookie, flags)] + tail)[1..] == tail;
    var t := Next(s, Attach(cookie, flags));
    RunsConcat(t, rest, [Pass(cookie)]);
    var u := After(t, rest);
    var task := |s.tasks|;
    CompletedByReport(t, rest, task);
    EveryRunCounts(before);
    StepKeepsInv(s, Attach(cookie, flags));
    RunKeepsInv(t, rest);
    assert [Pass(cookie)][0] == Pass(cookie);
    PassMeansReported(u, cookie, task);
  }

  lemma PassMeansReported(s: State, cookie: Cookie, task: nat)
    requires Inv(s) && Enabled(s, Pass(cookie)) && task < |s.tasks| && s.tasks[task].cookie == cookie
    ensures s.tasks[task].completed
  {
    assert Counted(s, cookie);
    NoneOutstanding(s.tasks, cookie);
  }

  /** A waiter is never stuck for want of reports: reporting the outstanding tasks lets it through. */
  lemma {:induction false} WaiterCanFinish(s: State, cookie: Cookie) returns (reports: seq<Event>)
    requires Inv(s) && InPhase(s, cookie, Waiting) && s.leaks[cookie] == 0
    ensures forall i :: 0 <= i < |reports| ==> reports[i].Complete?
    ensures Runs(s, reports) && Enabled(After(s, reports), Pass(cookie))
    decreases Outstanding(s.tasks, cookie)
  {
    assert Counted(s, cookie);
    NoneOutstanding(s.tasks, cookie);
    if Outstanding(s.tasks, cookie) == 0 {
      reports := [];
    } else {
      var task: nat :| task < |s.tasks| && s.tasks[task].cookie == cookie && !s.tasks[task].completed;
      OutstandingTaskCanReport(s, task);
      StepKeepsInv(s, Complete(task));
      OutstandingReported(s.tasks, task, cookie);
      var more := WaiterCanFinish(Next(s, Complete(task)), cookie);
      reports := [Complete(task)] + more;
      assert reports[1..] == more;
    }
  }

  /** An increment whose caller saw an error is never taken back: no waiter on that cookie ever gets through. */
  lemma {:induction false} LeakBlocksWaiter(s: State, events: seq<Event>, cookie: Cookie)
    requires Inv(s) && Runs(s, events) && s.leaks[cookie] > 0
    ensures Pass(cookie) !in events
    decreases |events|
  {
    if events != [] {
      assert Counted(s, cookie);
      StepKeepsInv(s, events[0]);
      assert events[0] != Pass(cookie);
      LeakBlocksWaiter(Next(s, events[0]), events[1..], cookie);
    }
  }

  // ----- the library's functions -----

  /** Which system calls fail during one call, for reasons other than the semaphore's state. */
  datatype Faults = Faults(semget: bool, semop: bool, getval: bool, setval: bool)

  /** How the call that waits for zero returns, other than for a signal, after which it is made again. */
  datatype Wake = AtZero | Removed | Failed

  const NO_COOKIE := Cookie(0)

  /** What decrementing without waiting leaves behind. */
  function Decremented(sems: map<Cookie, Semaphore>, cookie: Cookie, faults: Faults): (bool, map<Cookie, Semaphore>) {
    if cookie !in sems || faults.semget || faults.getval || faults.semop || sems[cookie].value <= 0 then (false, sems)
    else (true, Added(sems, cookie, -1))
  }

  /** A decrement succeeds exactly on a semaphore above zero when no call fails, and leaves none below it. */
  lemma DecrementedIff(sems: map<Cookie, Semaphore>, cookie: Cookie, faults: Faults)
    requires forall c :: c in sems ==> sems[c].value >= 0
    ensures var (ok, after) := Decremented(sems, cookie, faults);
      && (ok <==> cookie in sems && sems[cookie].value > 0 && !faults.semget && !faults.getval && !faults.semop)
      && after.Keys == sems.Keys && (forall c :: c in sems ==> after[c].value >= 0 && after[c].phase == sems[c].phase)
      && (forall c :: c in sems ==> after[c].value == sems[c].value - if ok && c == cookie then 1 else 0)
  {
  }

  predicate Free(sems: map<Cookie, Semaphore>, base: bv16) {
    base != 0 && CookieOf(base) !in sems
  }

  ghost predicate SomeFree(sems: map<Cookie, Semaphore>, bases: seq<bv16>) {
    exists i :: 0 <= i < |bases| && Free(sems, bases[i])
  }

  /** The semaphores of the host, shared by all processes. */
  class Host {
    var sems: map<Cookie, Semaphore>
    ghost var tasks: seq<Task>
    ghost var leaks: multiset<Cookie>
    const sync: bool             // dm_udev_get_sync_support
    const cookiesSupported: bool // dm_cookie_supported, without which there is no sync either

    constructor (sync: bool, cookiesSupported: bool)
      requires sync ==> cookiesSupported
      ensures Valid() && Now() == Init && this.sync == sync && this.cookiesSupported == cookiesSupported
    {
      this.sync, this.cookiesSupported := sync, cookiesSupported;
      sems, tasks, leaks := map[], [], multiset{};
      new;
      InitInv();
    }

    ghost function Now(): State
      reads this
    {
      State(sems, tasks, leaks)
    }

    ghost predicate Valid()
      reads this
    {
      Inv(Now()) && (sync ==> cookiesSupported)
    }

    /** `_get_cookie_sem` */
    method GetCookieSem(cookie: Cookie, faults: Faults) returns (ok: bool)
      requires Valid()
      ensures ok <==> cookie in sems && !faults.semget
    {
      if !RightPrefix(cookie) {
        return false;
      }
      return cookie in sems && !faults.semget;
    }

    /** `_udev_notify_sem_dec` on a semaphore that `_get_cookie_sem` found. */
    method SemDec(cookie: Cookie, faults: Faults) returns (ok: bool)
      requires cookie in sems && !faults.semget
      modifies `sems
      ensures (ok, sems) == Decremented(old(sems), cookie, faults)
    {
      if faults.getval || faults.semop || sems[cookie].value - 1 < 0 {
        return false;
      }
      sems := sems[cookie := sems[cookie].(value := sems[cookie].value - 1)];
      return true;
    }

    /** `_udev_notify_sem_create`, drawing random numbers until one is non-zero and its key is free. */
    method SemCreate(randoms: seq<bv16>, faults: Faults) returns (ok: bool, cookie: Cookie)
      requires Valid()
      modifies this
      ensures Valid()
      ensures ok <==> !faults.semget && !faults.setval && !faults.getval && SomeFree(old(sems), randoms)
      ensures ok ==> Made(old(Now()), cookie, Now())
      ensures !ok ==> cookie == NO_COOKIE
      ensures !ok ==>
        if !faults.semget && !faults.setval && SomeFree(old(sems), randoms)
        then exists key :: Made(old(Now()), key, Now()) else Now() == old(Now())
      ensures ok ==> exists i :: 0 <= i < |randoms| && cookie == CookieOf(randoms[i]) &&
                                 forall j :: 0 <= j < i ==> !Free(old(sems), randoms[j])
    {
      hide Inv, CookieOf, IsCookie;
      cookie := NO_COOKIE;
      var base: bv16 := 0;
      var next := 0;
      while base == 0
        invariant base == 0 && next <= |randoms|
        invariant forall j :: 0 <= j < next ==> !Free(sems, randoms[j])
        decreases |randoms| - next
      {
        if next == |randoms| {
          return false, cookie;
        }
        base := randoms[next];
        next := next + 1;
        if base != 0 {
          if faults.semget {
            return false, cookie;
          }
          if CookieOf(base) in sems {
            base := 0;
          } else {
            assert Free(sems, randoms[next-1]);
            break;
          }
        }
      }
      var key := CookieOf(base);
      CookieOfBase(base);
      StepKeepsInv(Now(), MakeKey(base));
      sems := sems[key := Semaphore(0, Creating)];
      if faults.setval {
        sems := sems - {key};
        assert Now() == old(Now());
        return false, cookie;
      }
      StepKeepsInv(Now(), SetFirst(key));
      sems := sems[key := Semaphore(1, Open)];
      assert Made(old(Now()), key, Now());
      if faults.getval {
        return false, cookie;
      }
      return true, key;
    }

    /** `dm_task_set_cookie`: makes a semaphore if there is no cookie yet and counts one more task in. */
    method SetCookie(given: Cookie, flags: bv16, eventBefore: bv32, randoms: seq<bv16>, faults: Faults)
      returns (ok: bool, cookie: Cookie, eventNr: bv32)
      requires Valid() && !InPhase(Now(), given, Creating)
      modifies this
      ensures Valid()
      ensures !sync ==> ok && cookie == NO_COOKIE && Now() == old(Now())
      ensures !sync ==> eventNr == if cookiesSupported then FlagBits(flags) else eventBefore
      ensures sync && ok ==> eventNr == EventNr(cookie, flags) && exists mid ::
        && ((mid == old(Now()) && cookie == given) || (given == NO_COOKIE && Made(old(Now()), cookie, mid)))
        && HandedOut(mid, cookie) && Now() == Next(mid, Attach(cookie, flags))
      ensures sync && given != NO_COOKIE ==>
        (ok <==> given in old(sems) && !faults.semget && !faults.semop && !faults.getval)
      ensures sync && given == NO_COOKIE ==>
        (ok <==> !faults.semget && !faults.setval && !faults.getval && !faults.semop && SomeFree(old(sems), randoms))
      ensures sync && !ok ==> eventNr == 0 && tasks == old(tasks)
      ensures sync && !ok && given == NO_COOKIE ==>
        if !faults.semget && !faults.setval && SomeFree(old(sems), randoms)
        then exists key :: Made(old(Now()), key, Now()) && cookie == if faults.getval then NO_COOKIE else key
        else Now() == old(Now()) && cookie == NO_COOKIE
      ensures sync && !ok && given != NO_COOKIE ==>
        Now() == if HandedOut(old(Now()), given) && !faults.semget && !faults.semop
                 then Next(old(Now()), AttachLeak(given)) else old(Now())
    {
      hide Inv, IsCookie, CookieOf, FlagBits, WithBase;
      eventNr := eventBefore;
      if cookiesSupported {
        eventNr := FlagBits(flags);
      }
      if !sync {
        return true, NO_COOKIE, eventNr;
      }
      cookie := given;
      if given != NO_COOKIE {
        ok := GetCookieSem(given, faults);
      } else {
        ok, cookie := SemCreate(randoms, faults);
      }
      if !ok {
        return false, cookie, 0;
      }
      ghost var mid := Now();
      ok := SemInc(cookie, flags, faults);
      if !ok {
        return false, cookie, 0;
      }
      eventNr := WithBase(eventNr, cookie);
    }

    /** `_udev_notify_sem_inc`: the increment stays even when reading the new value fails. */
    method SemInc(cookie: Cookie, ghost flags: bv16, faults: Faults) returns (ok: bool)
      requires Valid() && HandedOut(Now(), cookie)
      modifies this
      ensures Valid()
      ensures ok <==> !faults.semop && !faults.getval
      ensures ok ==> Now() == Next(old(Now()), Attach(cookie, flags))
      ensures !ok ==> Now() == if faults.semop then old(Now()) else Next(old(Now()), AttachLeak(cookie))
    {
      hide Inv, IsCookie, EventNr;
      ghost var s := Now();
      if faults.semop {
        return false;
      }
      sems := sems[cookie := sems[cookie].(value := sems[cookie].value + 1)];
      if faults.getval {
        leaks := leaks + multiset{cookie};
        StepKeepsInv(s, AttachLeak(cookie));
        return false;
      }
      tasks := tasks + [Task(cookie, EventNr(cookie, flags), false)];
      StepKeepsInv(s, Attach(cookie, flags));
      return true;
    }

    /** `dm_udev_complete` */
    method DmUdevComplete(cookie: Cookie, faults: Faults) returns (ok: bool)
      requires Valid()
      modifies `sems
      ensures cookie == NO_COOKIE || !sync ==> ok && sems == old(sems)
      ensures cookie != NO_COOKIE && sync ==> (ok, sems) == Decremented(old(sems), cookie, faults)
    {
      hide Inv;
      if cookie == NO_COOKIE || !sync {
        return true;
      }
      ok := GetCookieSem(cookie, faults);
      if !ok {
        return false;
      }
      ok := SemDec(cookie, faults);
    }

    /** `_udevcomplete`, on any event number whatever. */
    method UdevComplete(eventNr: bv32, faults: Faults) returns (ok: bool)
      requires Valid()
      modifies `sems
      ensures eventNr == 0 ==> !ok && sems == old(sems)
      ensures eventNr != 0 && (BaseOf(eventNr) == 0 || !sync) ==> ok && sems == old(sems)
      ensures BaseOf(eventNr) != 0 && sync ==>
        (ok, sems) == Decremented(old(sems), CompletionCookie(eventNr), faults)
    {
      BaseOfZero();
      RebuiltIsNonZero(eventNr);
      hide Inv, BaseOf, CompletionCookie;
      if eventNr == 0 {
        return false;
      }
      if BaseOf(eventNr) == 0 {
        return true;
      }
      ok := DmUdevComplete(CompletionCookie(eventNr), faults);
    }

    /** udev runs the completion command for the event of an attached task. */
    method Report(ghost task: nat, eventNr: bv32, faults: Faults) returns (ok: bool)
      requires Valid() && sync && Reportable(Now(), task) && tasks[task].eventNr == eventNr
      modifies this
      ensures Valid() && leaks == old(leaks)
      ensures ok <==> !faults.semget && !faults.getval && !faults.semop
      ensures Enabled(old(Now()), Complete(task))
      ensures ok ==> Now() == Next(old(Now()), Complete(task))
      ensures !ok ==> Now() == old(Now())
    {
      ghost var s := Now();
      OutstandingTaskCanReport(s, task);
      AttachedHasBase(s, task);
      hide Inv, CompletionCookie, BaseOf;
      ok := UdevComplete(eventNr, faults);
      if ok {
        tasks := tasks[task := tasks[task].(completed := true)];
        assert Now() == Next(s, Complete(task));
        StepKeepsInv(s, Complete(task));
      }
    }

    /**
    `_udev_wait` up to where it waits for zero; `blocked` tells whether it gets there.
    When its own decrement fails it gives up the cookie, and later reports will not find it.
    */
    method StartWaiting(cookie: Cookie, faults: Faults) returns (ok: bool, blocked: bool)
      requires Valid() && (cookie in sems ==> InPhase(Now(), cookie, Open))
      modifies `sems
      ensures cookie == NO_COOKIE || !sync ==> ok && !blocked && sems == old(sems)
      ensures cookie != NO_COOKIE && sync ==>
        (ok <==> blocked) && (ok <==> cookie in old(sems) && !faults.semget && !faults.getval && !faults.semop)
      ensures blocked ==>
              Valid() && Enabled(old(Now()), StartWait(cookie)) && Now() == Next(old(Now()), StartWait(cookie))
      ensures !blocked ==> sems == old(sems) - if sync && !faults.semget then {cookie} else {}
    {
      if cookie == NO_COOKIE || !sync {
        NoCookieIsFree();
        return true, false;
      }
      ok := GetCookieSem(cookie, faults);
      if !ok {
        return false, false;
      }
      ghost var s := Now();
      assert Counted(s, cookie);
      hide Inv;
      ok := SemDec(cookie, faults);
      if !ok {
        sems := sems - {cookie};
        return false, false;
      }
      sems := sems[cookie := sems[cookie].(phase := Waiting)];
      assert Now() == Next(s, StartWait(cookie));
      StepKeepsInv(s, StartWait(cookie));
      return true, true;
    }

    /**
    The end of `_udev_wait`, once the wait call has returned for good: the kernel lets the waiter
    through at zero, or finds the semaphore removed by someone else, or fails.  Destroying the
    semaphore may fail as well.
    */
    method FinishWaiting(cookie: Cookie, wake: Wake, rmidFails: bool) returns (ok: bool)
      requires wake != Removed ==> Valid() && InPhase(Now(), cookie, Waiting)
      requires wake == AtZero ==> sems[cookie].value == 0
      requires wake == Removed ==> cookie !in sems
      modifies `sems
      ensures ok <==> wake == Removed || (wake == AtZero && !rmidFails)
      ensures sems == old(sems) - if rmidFails then {} else {cookie}
      ensures wake == AtZero ==> Valid() && AllReported(Now(), cookie) && leaks[cookie] == 0
      ensures wake == AtZero && ok ==> Now() == Next(old(Now()), Pass(cookie))
    {
      ghost var s := Now();
      if wake == AtZero {
        assert Counted(s, cookie);
        NoneOutstanding(tasks, cookie);
        StepKeepsInv(s, Pass(cookie));
      }
      hide Inv;
      if wake == Removed {
        return true;
      }
      if !rmidFails {
        sems := sems - {cookie};
      }
      return wake == AtZero && !rmidFails;
    }
  }

  /** A semaphore was made under a free key and holds its first count. */
  ghost predicate Made(s: State, cookie: Cookie, t: State) {
    IsCookie(cookie) && cookie !in s.sems && t == s.(sems := s.sems[cookie := Semaphore(1, Open)])
  }

  lemma AttachedHasBase(s: State, task: nat)
    requires Inv(s) && Reportable(s, task)
    ensures BaseOf(s.tasks[task].eventNr) != 0
  {
    OutstandingTaskCanReport(s, task);
    var c := CompletionCookie(s.tasks[task].eventNr);
    assert IsCookie(c);
    RebuiltBase(s.tasks[task].eventNr);
  }

  lemma NoCookieIsFree()
    ensures !IsCookie(NO_COOKIE)
  {
  }

  lemma RebuiltIsNonZero(eventNr: bv32)
    ensures CompletionCookie(eventNr) != NO_COOKIE
  {
  }

  lemma RebuiltBase(eventNr: bv32)
    ensures BaseOf(CompletionCookie(eventNr).bits) == BaseOf(eventNr)
  {
  }
}
