/**
 The bounded buffer of A6/src/main/java/boundedBuffer.java as a monitor with signal-and-continue.
 A step is one stretch in the monitor: a thread takes the lock, on entry or after it was signalled, and gives it back
 when it waits or returns. Any runnable thread may take the next step, so entering threads may barge in.
 */
module Monitor {
  import opened Sequences

  datatype Op = Deposit(data: string) | Fetch

  /** `Ready` is outside the monitor, `Waiting` is parked on the condition its operation waits for, and `Signalled`
      has been woken but has not got the lock back yet. */
  datatype Status = Ready | Waiting | Signalled

  datatype Thread = Thread(todo: seq<Op>, status: Status)

  datatype State = State(arr: seq<string>, front: nat, rear: nat, count: nat, threads: seq<Thread>)

  predicate InRange(s: State) {
    s.count <= |s.arr| && (|s.arr| > 0 ==> s.front < |s.arr| && s.rear < |s.arr|)
  }

  predicate Runnable(s: State, t: nat) {
    t < |s.threads| && s.threads[t].todo != [] && s.threads[t].status != Waiting
  }

  predicate Blocked(s: State, op: Op) {
    if op.Fetch? then s.count == 0 else s.count == |s.arr|
  }

  /** The thread is parked, to fetch or to deposit. */
  predicate Parked(th: Thread, fetch: bool) {
    th.status == Waiting && th.todo != [] && th.todo[0].Fetch? == fetch
  }

  /** Whom a step of `t` may signal: nobody if it blocks or if nobody waits for what it did. */
  predicate MaySignal(s: State, t: nat, woken: Option<nat>)
    requires Runnable(s, t)
  {
    var op := s.threads[t].todo[0];
    if Blocked(s, op) then woken == None
    else if woken.Some? then woken.value < |s.threads| && Parked(s.threads[woken.value], op.Deposit?)
    else forall w :: 0 <= w < |s.threads| ==> !Parked(s.threads[w], op.Deposit?)
  }

  function Signal(threads: seq<Thread>, woken: Option<nat>): (r: seq<Thread>)
    requires woken.Some? ==> woken.value < |threads|
    ensures |r| == |threads|
  {
    if woken.None? then threads else threads[woken.value := threads[woken.value].(status := Signalled)]
  }

  /** One stretch of thread `t` in the monitor. `filler` is what the loop in deposit writes over the whole buffer. */
  function Stretch(s: State, t: nat, woken: Option<nat>, filler: seq<string>): State
    requires InRange(s) && Runnable(s, t) && MaySignal(s, t, woken) && |filler| == |s.arr|
  {
    var th := s.threads[t];
    if Blocked(s, th.todo[0]) then
      s.(threads := s.threads[t := th.(status := Waiting)])
    else
      var threads := Signal(s.threads[t := Thread(th.todo[1..], Ready)], woken);
      match th.todo[0]
      case Deposit(data) =>
        State(filler[s.rear := data], s.front, (s.rear + 1) % |s.arr|, s.count + 1, threads)
      case Fetch =>
        State(s.arr, (s.front + 1) % |s.arr|, s.rear, s.count - 1, threads)
  }

  /** What a stretch that waits changes: the thread's status only. */
  lemma StretchWaits(s: State, t: nat, woken: Option<nat>, filler: seq<string>, i: nat)
    requires InRange(s) && Runnable(s, t) && MaySignal(s, t, woken) && |filler| == |s.arr| && i < |s.threads|
    requires if s.threads[t].todo[0].Fetch? then s.count == 0 else s.count == |s.arr|
    ensures var r := Stretch(s, t, woken, filler);
            && r == s.(threads := r.threads) && |r.threads| == |s.threads|
            && r.threads[i] == if i == t then Thread(s.threads[t].todo, Waiting) else s.threads[i]
  {
  }

  /** What any other stretch changes: a deposit fills the buffer, puts its datum in its place and moves `rear` on; a fetch
      moves `front` on; the thread is done with the operation, and the one that is woken may go on. */
  lemma StretchActs(s: State, t: nat, woken: Option<nat>, filler: seq<string>, i: nat)
    requires InRange(s) && Runnable(s, t) && MaySignal(s, t, woken) && |filler| == |s.arr| && i < |s.threads|
    requires if s.threads[t].todo[0].Fetch? then s.count > 0 else s.count < |s.arr|
    ensures var r, fetch := Stretch(s, t, woken, filler), s.threads[t].todo[0].Fetch?;
            && |r.threads| == |s.threads| && |r.arr| == |s.arr|
            && r.count == (if fetch then s.count - 1 else s.count + 1)
            && r.front == (if !fetch then s.front else if s.front + 1 == |s.arr| then 0 else s.front + 1)
            && r.rear == (if fetch then s.rear else if s.rear + 1 == |s.arr| then 0 else s.rear + 1)
            && (forall k :: 0 <= k < |s.arr| ==>
                  r.arr[k] == if fetch then s.arr[k] else if k == s.rear then s.threads[t].todo[0].data else filler[k])
            && r.threads[i] == (if i == t then Thread(s.threads[t].todo[1..], Ready)
                                else if woken == Some(i) then Thread(s.threads[i].todo, Signalled)
                                else s.threads[i])
  {
    Around(s.front, |s.arr|);
    Around(s.rear, |s.arr|);
  }

  // ----- whole runs -----

  /** A thread has a stretch in the monitor, or wakes without having been signalled. */
  datatype Event = Run(t: nat, woken: Option<nat>, filler: seq<string>) | WakeUp(t: nat)

  ghost predicate Enabled(s: State, e: Event) {
    && InRange(s)
    && match e
       case Run(t, woken, filler) => Runnable(s, t) && MaySignal(s, t, woken) && |filler| == |s.arr|
       case WakeUp(t) => t < |s.threads| && s.threads[t].status == Waiting
  }

  ghost function Step(s: State, e: Event): State
    requires Enabled(s, e)
  {
    match e
    case Run(t, woken, filler) => Stretch(s, t, woken, filler)
    case WakeUp(t) => s.(threads := Signal(s.threads, Some(t)))
  }

  ghost predicate IsRun(s: State, events: seq<Event>)
    decreases |events|, 0
  {
    events == [] || (IsRun(s, events[..|events| - 1])
                     && Enabled(After(s, events[..|events| - 1]), events[|events| - 1]))
  }

  ghost function After(s: State, events: seq<Event>): State
    requires IsRun(s, events)
    decreases |events|, 1
  {
    if events == [] then s else Step(After(s, events[..|events| - 1]), events[|events| - 1])
  }

  ghost predicate Initial(s: State) {
    && s.front == s.rear == s.count == 0
    && forall t :: 0 <= t < |s.threads| ==> s.threads[t].status == Ready
  }

  // ----- sums over the threads -----

  function Tally(threads: seq<Thread>, f: Thread -> int): int {
    if threads == [] then 0 else Tally(threads[..|threads| - 1], f) + f(threads[|threads| - 1])
  }

  lemma {:induction false} TallyUpdate(threads: seq<Thread>, i: nat, x: Thread, f: Thread -> int)
    requires i < |threads|
    ensures Tally(threads[i := x], f) == Tally(threads, f) - f(threads[i]) + f(x)
  {
    var n := |threads| - 1;
    if i == n {
      assert threads[i := x][..n] == threads[..n];
    } else {
      assert threads[i := x][..n] == threads[..n][i := x];
      TallyUpdate(threads[..n], i, x, f);
    }
  }

  lemma {:induction false} TallySign(threads: seq<Thread>, f: Thread -> int)
    requires forall i :: 0 <= i < |threads| ==> f(threads[i]) >= 0
    ensures Tally(threads, f) >= 0
    ensures forall i :: 0 <= i < |threads| ==> f(threads[i]) <= Tally(threads, f)
  {
    if threads == [] {
    } else {
      TallySign(threads[..|threads| - 1], f);
    }
  }

  function SignalledFetch(th: Thread): int {
    if th.status == Signalled && th.todo != [] && th.todo[0].Fetch? then 1 else 0
  }

  function SignalledDeposit(th: Thread): int {
    if th.status == Signalled && th.todo != [] && th.todo[0].Deposit? then 1 else 0
  }

  // ----- no lost wake-up -----

  predicate AnyParked(s: State, fetch: bool) {
    exists t :: 0 <= t < |s.threads| && Parked(s.threads[t], fetch)
  }

  /** Someone parked on a condition means that enough threads have been signalled on it already to use up
      everything there is to fetch, or all the room there is. */
  ghost predicate NoLostWakeUp(s: State) {
    && (AnyParked(s, true) ==> Tally(s.threads, SignalledFetch) >= s.count)
    && (AnyParked(s, false) ==> Tally(s.threads, SignalledDeposit) >= |s.arr| - s.count)
  }

  ghost predicate Inv(s: State) {
    InRange(s) && NoLostWakeUp(s)
  }

  lemma ThreadsAfter(s: State, e: Event, f: Thread -> int)
    requires Enabled(s, e)
    ensures e.WakeUp? ==>
              Tally(Step(s, e).threads, f)
              == Tally(s.threads, f) - f(s.threads[e.t]) + f(s.threads[e.t].(status := Signalled))
    ensures e.Run? && Blocked(s, s.threads[e.t].todo[0]) ==>
              Tally(Step(s, e).threads, f)
              == Tally(s.threads, f) - f(s.threads[e.t]) + f(s.threads[e.t].(status := Waiting))
    ensures e.Run? && !Blocked(s, s.threads[e.t].todo[0]) ==>
              Tally(Step(s, e).threads, f)
              == Tally(s.threads, f) - f(s.threads[e.t]) + f(Thread(s.threads[e.t].todo[1..], Ready))
                 + (if e.woken.None? then 0
                    else f(s.threads[e.woken.value].(status := Signalled)) - f(s.threads[e.woken.value]))
  {
    var th := s.threads[e.t];
    if e.WakeUp? {
      TallyUpdate(s.threads, e.t, th.(status := Signalled), f);
    } else if Blocked(s, th.todo[0]) {
      TallyUpdate(s.threads, e.t, th.(status := Waiting), f);
    } else {
      var after := Thread(th.todo[1..], Ready);
      TallyUpdate(s.threads, e.t, after, f);
      if e.woken.Some? {
        var threads := s.threads[e.t := after];
        TallyUpdate(threads, e.woken.value, threads[e.woken.value].(status := Signalled), f);
      }
    }
  }

  lemma TalliesNonnegative(threads: seq<Thread>)
    ensures Tally(threads, SignalledFetch) >= 0 && Tally(threads, SignalledDeposit) >= 0
  {
    TallySign(threads, SignalledFetch);
    TallySign(threads, SignalledDeposit);
  }

  lemma InvWakeUp(s: State, e: Event)
    requires Inv(s) && Enabled(s, e) && e.WakeUp?
    ensures Inv(Step(s, e))
  {
    ThreadsAfter(s, e, SignalledFetch);
    ThreadsAfter(s, e, SignalledDeposit);
  }

  lemma InvBlocked(s: State, e: Event)
    requires Inv(s) && Enabled(s, e) && e.Run? && Blocked(s, s.threads[e.t].todo[0])
    ensures Inv(Step(s, e))
  {
    ThreadsAfter(s, e, SignalledFetch);
    ThreadsAfter(s, e, SignalledDeposit);
    TalliesNonnegative(Step(s, e).threads);
  }

  lemma InvPerformed(s: State, e: Event)
    requires Inv(s) && Enabled(s, e) && e.Run? && !Blocked(s, s.threads[e.t].todo[0])
    ensures Inv(Step(s, e))
  {
    ThreadsAfter(s, e, SignalledFetch);
    ThreadsAfter(s, e, SignalledDeposit);
    TalliesNonnegative(Step(s, e).threads);
  }

  /** Every step keeps the invariant. */
  lemma InvStep(s: State, e: Event)
    requires Inv(s) && Enabled(s, e)
    ensures Inv(Step(s, e))
  {
    if e.WakeUp? {
      InvWakeUp(s, e);
    } else if Blocked(s, s.threads[e.t].todo[0]) {
      InvBlocked(s, e);
    } else {
      InvPerformed(s, e);
    }
  }

  /** No interleaving, with barging and with wake-ups out of nowhere, ever loses a wake-up. */
  lemma {:induction false} InvAlways(s: State, events: seq<Event>)
    requires Initial(s) && IsRun(s, events)
    ensures Inv(After(s, events))
  {
    if events == [] {
      TallySign(s.threads, SignalledFetch);
    } else {
      InvAlways(s, events[..|events| - 1]);
      InvStep(After(s, events[..|events| - 1]), events[|events| - 1]);
    }
  }

  // ----- no deadlock -----

  predicate Stuck(s: State) {
    forall t :: 0 <= t < |s.threads| ==> !Runnable(s, t)
  }

  /** When nobody can run, fetchers wait only on an empty buffer and depositors only on a full one;
      so with room for one item the two never wait for each other. */
  lemma StuckMeans(s: State)
    requires Inv(s) && Stuck(s)
    ensures AnyParked(s, true) ==> s.count == 0
    ensures AnyParked(s, false) ==> s.count == |s.arr|
    ensures |s.arr| > 0 ==> !(AnyParked(s, true) && AnyParked(s, false))
  {
    forall t | 0 <= t < |s.threads|
      ensures SignalledFetch(s.threads[t]) == 0 && SignalledDeposit(s.threads[t]) == 0
    {
      assert !Runnable(s, t);
    }
    TallyZero(s.threads, SignalledFetch);
    TallyZero(s.threads, SignalledDeposit);
  }

  lemma {:induction false} TallyZero(threads: seq<Thread>, f: Thread -> int)
    requires forall i :: 0 <= i < |threads| ==> f(threads[i]) == 0
    ensures Tally(threads, f) == 0
  {
    if threads == [] {
    } else {
      TallyZero(threads[..|threads| - 1], f);
    }
  }

  /** A buffer without room deadlocks: a fetcher and a depositor wait for each other. */
  lemma NoRoomDeadlocks(data: string)
    ensures var s := State([], 0, 0, 0, [Thread([Fetch], Ready), Thread([Deposit(data)], Ready)]);
            var events := [Run(0, None, []), Run(1, None, [])];
            Initial(s) && IsRun(s, events) && Stuck(After(s, events))
            && AnyParked(After(s, events), true) && AnyParked(After(s, events), false)
  {
    var s := State([], 0, 0, 0, [Thread([Fetch], Ready), Thread([Deposit(data)], Ready)]);
    var e0, e1 := Run(0, None, []), Run(1, None, []);
    assert [e0, e1][..1] == [e0] && [e0][..0] == [];
    var s1 := After(s, [e0]);
    assert s1 == State([], 0, 0, 0, [Thread([Fetch], Waiting), Thread([Deposit(data)], Ready)]);
    var s2 := After(s, [e0, e1]);
    assert s2 == State([], 0, 0, 0, [Thread([Fetch], Waiting), Thread([Deposit(data)], Waiting)]);
    assert Parked(s2.threads[0], true) && Parked(s2.threads[1], false);
  }

  /** A thread that can run has a step to take, whoever is waiting. */
  lemma RunnableSteps(s: State, t: nat, filler: seq<string>)
    requires InRange(s) && Runnable(s, t) && |filler| == |s.arr|
    ensures exists woken :: Enabled(s, Run(t, woken, filler))
  {
    var op := s.threads[t].todo[0];
    if !Blocked(s, op) && AnyParked(s, op.Deposit?) {
      var w :| 0 <= w < |s.threads| && Parked(s.threads[w], op.Deposit?);
      assert Enabled(s, Run(t, Some(w), filler));
    } else {
      assert Enabled(s, Run(t, None, filler));
    }
  }

  // ----- every run ends -----

  /** Operations left count double, and a thread that is awake counts one more. */
  function Work(th: Thread): int {
    2 * |th.todo| + if th.status == Waiting then 0 else 1
  }

  function Runs(events: seq<Event>): nat {
    if events == [] then 0 else Runs(events[..|events| - 1]) + if events[|events| - 1].Run? then 1 else 0
  }

  /** Every stretch in the monitor uses up work, and only a wake-up out of nowhere adds any. */
  lemma {:induction false} RunsEnd(s: State, events: seq<Event>)
    requires IsRun(s, events)
    ensures Runs(events) + Tally(After(s, events).threads, Work) <= Tally(s.threads, Work) + (|events| - Runs(events))
    ensures Runs(events) <= Tally(s.threads, Work) + (|events| - Runs(events))
  {
    if events == [] {
    } else {
      RunsEnd(s, events[..|events| - 1]);
      ThreadsAfter(After(s, events[..|events| - 1]), events[|events| - 1], Work);
    }
    TallySign(After(s, events).threads, Work);
  }

  // ----- the main program -----

  function Net(todo: seq<Op>): int {
    if todo == [] then 0 else (if todo[0].Deposit? then 1 else -1) + Net(todo[1..])
  }

  function NetLeft(th: Thread): int {
    Net(th.todo)
  }

  /** Items in the buffer plus deposits still to come less fetches still to come. */
  function Balance(s: State): int {
    s.count + Tally(s.threads, NetLeft)
  }

  lemma {:induction false} BalanceKept(s: State, events: seq<Event>)
    requires IsRun(s, events)
    ensures Balance(After(s, events)) == Balance(s)
  {
    if events == [] {
    } else {
      BalanceKept(s, events[..|events| - 1]);
      ThreadsAfter(After(s, events[..|events| - 1]), events[|events| - 1], NetLeft);
    }
  }

  /** What is left of a thread of the main program. */
  predicate MainShape(th: Thread) {
    || th.todo == []
    || (|th.todo| == 1 && th.todo[0].Deposit?)
    || (|th.todo| == 2 && th.todo[0].Fetch? && th.todo[1].Deposit?)
  }

  /** The first thread deposits; every other thread fetches and then deposits. */
  predicate MainProgram(threads: seq<Thread>) {
    && threads != [] && |threads[0].todo| == 1 && threads[0].todo[0].Deposit?
    && forall t :: 1 <= t < |threads| ==>
         |threads[t].todo| == 2 && threads[t].todo[0].Fetch? && threads[t].todo[1].Deposit?
  }

  lemma {:induction false} MainBalance(threads: seq<Thread>)
    requires MainProgram(threads)
    ensures Tally(threads, NetLeft) == 1
  {
    var n := |threads| - 1;
    ShapeNet(threads[n]);
    if n == 0 {
    } else {
      MainBalance(threads[..n]);
    }
  }

  lemma {:induction false} MainShapes(s: State, events: seq<Event>)
    requires IsRun(s, events) && MainProgram(s.threads)
    ensures forall t :: 0 <= t < |After(s, events).threads| ==> MainShape(After(s, events).threads[t])
  {
    if events == [] {
    } else {
      MainShapes(s, events[..|events| - 1]);
    }
  }

  lemma {:induction false} ShapeNet(th: Thread)
    requires MainShape(th)
    ensures NetLeft(th) == if |th.todo| == 1 then 1 else 0
    decreases |th.todo|
  {
    if |th.todo| == 1 { assert Net(th.todo[1..]) == 0; }
    if |th.todo| == 2 {
      ShapeNet(Thread(th.todo[1..], th.status));
      assert Net(th.todo[1..]) == 1;
    }
  }

  /** With room for one item or more and any number of threads, the main program never gets stuck half-way:
      in every interleaving somebody can run until every thread has finished. */
  lemma MainFinishes(s: State, events: seq<Event>)
    requires Initial(s) && |s.arr| > 0 && MainProgram(s.threads) && IsRun(s, events)
    requires Stuck(After(s, events))
    ensures forall t :: 0 <= t < |After(s, events).threads| ==> After(s, events).threads[t].todo == []
  {
    var now := After(s, events);
    InvAlways(s, events);
    StuckMeans(now);
    BalanceKept(s, events);
    MainBalance(s.threads);
    MainShapes(s, events);
    SameRoom(s, events);
    forall t | 0 <= t < |now.threads|
      ensures now.threads[t].todo != [] ==> Parked(now.threads[t], now.threads[t].todo[0].Fetch?)
      ensures NetLeft(now.threads[t]) == if |now.threads[t].todo| == 1 then 1 else 0
    {
      assert !Runnable(now, t);
      ShapeNet(now.threads[t]);
    }
    TallySign(now.threads, NetLeft);
    if AnyParked(now, true) {
      TallyZero(now.threads, NetLeft);
    }
  }

  lemma {:induction false} SameRoom(s: State, events: seq<Event>)
    requires IsRun(s, events)
    ensures |After(s, events).arr| == |s.arr| && |After(s, events).threads| == |s.threads|
  {
    if events == [] {
    } else {
      SameRoom(s, events[..|events| - 1]);
    }
  }

  // ----- what a fetch returns -----

  /** The data deposited and not yet fetched, oldest first: what a queue would hold. */
  ghost function Pending(s: State, events: seq<Event>): seq<string>
    requires IsRun(s, events)
  {
    if events == [] then [] else
      var before, e := events[..|events| - 1], events[|events| - 1];
      var queue, now := Pending(s, before), After(s, before);
      if e.WakeUp? || Blocked(now, now.threads[e.t].todo[0]) then queue else
        match now.threads[e.t].todo[0]
        case Deposit(data) => queue + [data]
        case Fetch => if queue == [] then [] else queue[1..]
  }

  /** The filler of the latest deposit. */
  ghost function LatestFiller(s: State, events: seq<Event>): seq<string>
    requires IsRun(s, events)
  {
    if events == [] then [] else
      var before, e := events[..|events| - 1], events[|events| - 1];
      var now := After(s, before);
      if e.Run? && now.threads[e.t].todo[0].Deposit? && !Blocked(now, now.threads[e.t].todo[0]) then e.filler
      else LatestFiller(s, before)
  }

  /** The buffer is the latest filler but for the slot behind `rear`, which holds the newest datum. */
  ghost predicate Stored(now: State, queue: seq<string>, filler: seq<string>) {
    && InRange(now) && |queue| == now.count
    && (now.front + now.count == now.rear || now.front + now.count == now.rear + |now.arr|)
    && (queue != [] ==>
          var newest := if now.rear == 0 then |now.arr| - 1 else now.rear - 1;
          |filler| == |now.arr| && now.arr == filler[newest := queue[|queue| - 1]])
  }

  lemma {:induction false} StoredAlways(s: State, events: seq<Event>)
    requires Initial(s) && IsRun(s, events)
    ensures Stored(After(s, events), Pending(s, events), LatestFiller(s, events))
  {
    if events == [] {
    } else {
      var before, e := events[..|events| - 1], events[|events| - 1];
      StoredAlways(s, before);
      StoredStep(After(s, before), Pending(s, before), LatestFiller(s, before), e);
    }
  }

  lemma StoredStep(now: State, queue: seq<string>, filler: seq<string>, e: Event)
    requires Enabled(now, e) && Stored(now, queue, filler)
    ensures e.WakeUp? || Blocked(now, now.threads[e.t].todo[0]) ==> Stored(Step(now, e), queue, filler)
    ensures e.Run? && !Blocked(now, now.threads[e.t].todo[0]) ==>
              match now.threads[e.t].todo[0]
              case Deposit(data) => Stored(Step(now, e), queue + [data], e.filler)
              case Fetch => queue != [] && Stored(Step(now, e), queue[1..], filler)
  {
    if e.Run? && !Blocked(now, now.threads[e.t].todo[0]) {
      Around(now.front, |now.arr|);
      Around(now.rear, |now.arr|);
    }
  }

  lemma Around(i: nat, n: nat)
    requires i < n
    ensures (i + 1) % n == if i + 1 == n then 0 else i + 1
  {
  }

  /** A fetch that goes ahead returns the oldest pending datum exactly when that is the only one pending
      (or the filler text happens to agree); otherwise the filler has overwritten it. */
  lemma FetchReturns(s: State, events: seq<Event>)
    requires Initial(s) && IsRun(s, events) && After(s, events).count > 0
    ensures var now, queue, filler := After(s, events), Pending(s, events), LatestFiller(s, events);
            && |queue| == now.count && now.front < |filler| == |now.arr|
            && now.arr[now.front] == (if now.count == 1 then queue[0] else filler[now.front])
            && (now.arr[now.front] == queue[0] <==> now.count == 1 || filler[now.front] == queue[0])
  {
    StoredAlways(s, events);
  }

  /** Two deposits into a buffer of two slots: the second one's filler is in front, where a queue has the first. */
  lemma OlderDatumLost(a: string, b: string, filler: seq<string>)
    requires |filler| == 2
    ensures var s := State(["", ""], 0, 0, 0, [Thread([Deposit(a)], Ready), Thread([Deposit(b)], Ready)]);
            var events := [Run(0, None, filler), Run(1, None, filler)];
            && Initial(s) && IsRun(s, events) && Pending(s, events) == [a, b]
            && After(s, events).count == 2 && After(s, events).arr[After(s, events).front] == filler[0]
  {
    var s := State(["", ""], 0, 0, 0, [Thread([Deposit(a)], Ready), Thread([Deposit(b)], Ready)]);
    var e0, e1 := Run(0, None, filler), Run(1, None, filler);
    assert [e0, e1][..1] == [e0] && [e0][..0] == [];
    assert After(s, []) == s;
    LastDeposit(s, 0, a, filler);
    LastDeposit(Step(s, e0), 1, b, filler);
    assert Pending(s, [e0]) == [a];
  }

  /** What the last deposit of a thread does while nobody waits. */
  lemma LastDeposit(s: State, t: nat, data: string, filler: seq<string>)
    requires InRange(s) && s.count < |s.arr| == |filler| && t < |s.threads|
    requires s.threads[t] == Thread([Deposit(data)], Ready)
    requires forall w :: 0 <= w < |s.threads| ==> s.threads[w].status == Ready
    ensures Enabled(s, Run(t, None, filler))
    ensures Step(s, Run(t, None, filler))
            == State(filler[s.rear := data], s.front, (s.rear + 1) % |s.arr|, s.count + 1,
                     s.threads[t := Thread([], Ready)])
  {
    assert s.threads[t].todo[1..] == [];
  }

  /** The main program never has more than one item in the buffer, in any interleaving: so there every fetch returns
      what a queue would return. */
  lemma MainFetches(s: State, events: seq<Event>)
    requires Initial(s) && MainProgram(s.threads) && IsRun(s, events)
    ensures After(s, events).count <= 1
    ensures After(s, events).count == 1 ==>
              var now := After(s, events);
              now.front < |now.arr| && Pending(s, events) == [now.arr[now.front]]
  {
    var now := After(s, events);
    BalanceKept(s, events);
    MainBalance(s.threads);
    MainShapes(s, events);
    forall t | 0 <= t < |now.threads| ensures NetLeft(now.threads[t]) >= 0 {
      ShapeNet(now.threads[t]);
    }
    TallySign(now.threads, NetLeft);
    if now.count > 0 { FetchReturns(s, events); }
  }

  // ----- the buffer object -----

  /** The buffer, with the threads that use it; who waits on which condition follows from what each thread
      is doing. */
  class BoundedBuffer {
    const arr: array<string>
    var front: nat
    var rear: nat
    var count: nat
    var threads: seq<Thread>

    constructor (capacity: nat, threads: seq<Thread>)
      ensures arr.Length == capacity && front == rear == count == 0 && this.threads == threads
      ensures fresh(arr)
    {
      arr := new string[capacity](_ => "");
      front, rear, count := 0, 0, 0;
      this.threads := threads;
    }

    function Contents(): State
      reads this, arr
    {
      State(arr[..], front, rear, count, threads)
    }

    /** Thread `t` in deposit, from taking the lock to waiting or returning. */
    method Deposit(t: nat, filler: seq<string>) returns (woken: Option<nat>)
      requires InRange(Contents()) && Runnable(Contents(), t) && threads[t].todo[0].Deposit? && |filler| == arr.Length
      modifies this, arr
      ensures MaySignal(old(Contents()), t, woken)
      ensures Contents() == Stretch(old(Contents()), t, woken, filler)
    {
      if count == arr.Length {
        threads := threads[t := threads[t].(status := Waiting)];
        return None;
      }
      var data := threads[t].todo[0].data;
      for i := 0 to arr.Length
        modifies arr
        invariant arr[..i] == filler[..i]
      {
        arr[i] := data;
        arr[i] := filler[i];
      }
      assert arr[..] == filler;
      arr[rear] := data;
      rear := (rear + 1) % arr.Length;
      count := count + 1;
      woken := SignalOne(t, true);
    }

    /** Thread `t` in fetch, likewise; `res` is what it returns if it does not wait. */
    method Fetch(t: nat, ghost filler: seq<string>) returns (res: Option<string>, woken: Option<nat>)
      requires InRange(Contents()) && Runnable(Contents(), t) && threads[t].todo[0].Fetch? && |filler| == arr.Length
      modifies this
      ensures MaySignal(old(Contents()), t, woken)
      ensures Contents() == Stretch(old(Contents()), t, woken, filler)
      ensures res == if old(count) == 0 then None else Some(arr[old(front)])
    {
      if count == 0 {
        threads := threads[t := threads[t].(status := Waiting)];
        return None, None;
      }
      res := Some(arr[front]);
      front := (front + 1) % arr.Length;
      count := count - 1;
      woken := SignalOne(t, false);
    }

    /** Thread `t` is done with its operation and wakes one thread parked on the given side, if there is one. */
    method SignalOne(t: nat, fetch: bool) returns (woken: Option<nat>)
      requires t < |threads| && threads[t].todo != [] && threads[t].status != Waiting
      modifies this`threads
      ensures woken.Some? ==> woken.value < |old(threads)| && Parked(old(threads)[woken.value], fetch)
      ensures woken.None? ==> forall w :: 0 <= w < |old(threads)| ==> !Parked(old(threads)[w], fetch)
      ensures threads == Signal(old(threads)[t := Thread(old(threads)[t].todo[1..], Ready)], woken)
    {
      if w :| 0 <= w < |threads| && Parked(threads[w], fetch) {
        woken := Some(w);
      } else {
        woken := None;
      }
      threads := Signal(threads[t := Thread(threads[t].todo[1..], Ready)], woken);
    }
  }
}
