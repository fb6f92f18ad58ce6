/**
 The condition-variable program of pthread_wait/main.c: a number of threads
 that raise a shared counter under a mutex, and one watcher that sleeps on a
 condition variable until the counter reaches a limit.

 The program is a step relation.  Every access to the shared counter is a step
 of its own (an increment is a load and a store), so that nothing is atomic
 except what the mutex makes so, and a sleeping watcher may wake at any moment
 without a signal.  A run is the list of the steps taken, in any interleaving.
 */
module CondVar {

  /** How many threads increment, how often each does, and the watcher's threshold. */
  datatype Program = Program(threads: nat, rounds: nat, limit: int)

  /** What the watcher adds each time it wakes up. */
  const BONUS: nat := 125

  datatype Owner = Free | Watching | Incrementing(thread: nat)

  /** Where the watcher is; from `Testing` to `Loaded`, except asleep, it holds the mutex. */
  datatype Watcher =
    | Starting
    | Testing
    | AboutToWait
    | Waiting
    | Woken
    | Resumed
    | Loaded(register: int)
    | Leaving
    | Finished

  /** Where an incrementing thread is within one round. */
  datatype Place =
    | Idle
    | Locked
    | Read(register: int)
    | Checking
    | Signalling
    | Unlocking

  datatype Worker = Worker(i: nat, place: Place)

  datatype State = State(count: int, owner: Owner, watcher: Watcher, workers: seq<Worker>)

  datatype Event =
    | WatchLock
    | WatchTest
    | WatchWait
    | WatchWake
    | WatchRelock
    | WatchLoad
    | WatchStore
    | WatchUnlock
    | Lock(k: nat)
    | Load(k: nat)
    | Store(k: nat)
    | Check(k: nat)
    | Signal(k: nat)
    | Unlock(k: nat)

  datatype Option<T> = None | Some(value: T)

  function Start(p: Program): State {
    State(0, Free, Starting, seq(p.threads, _ => Worker(0, Idle)))
  }

  // ----- one step -----

  predicate WatcherMay(s: State, e: Event) {
    match e
    case WatchLock => s.watcher.Starting? && s.owner.Free?
    case WatchTest => s.watcher.Testing?
    case WatchWait => s.watcher.AboutToWait?
    case WatchWake => s.watcher.Waiting?
    case WatchRelock => s.watcher.Woken? && s.owner.Free?
    case WatchLoad => s.watcher.Resumed?
    case WatchStore => s.watcher.Loaded?
    case WatchUnlock => s.watcher.Leaving?
    case _ => false
  }

  predicate WorkerMay(p: Program, s: State, e: Event)
    requires !Watches(e)
  {
    e.k < |s.workers| &&
    var w := s.workers[e.k];
    match e
    case Lock(_) => w.place.Idle? && w.i < p.rounds && s.owner.Free?
    case Load(_) => w.place.Locked?
    case Store(_) => w.place.Read?
    case Check(_) => w.place.Checking?
    case Signal(_) => w.place.Signalling?
    case Unlock(_) => w.place.Unlocking?
  }

  predicate Watches(e: Event) {
    e.WatchLock? || e.WatchTest? || e.WatchWait? || e.WatchWake? || e.WatchRelock?
    || e.WatchLoad? || e.WatchStore? || e.WatchUnlock?
  }

  predicate Enabled(p: Program, s: State, e: Event) {
    if Watches(e) then WatcherMay(s, e) else WorkerMay(p, s, e)
  }

  function AfterWatcher(p: Program, s: State, e: Event): State
    requires Watches(e) && WatcherMay(s, e)
  {
    match e
    case WatchLock => s.(owner := Watching, watcher := Testing)
    case WatchTest => s.(watcher := if s.count < p.limit then AboutToWait else Leaving)
    case WatchWait => s.(owner := Free, watcher := Waiting)
    case WatchWake => s.(watcher := Woken)
    case WatchRelock => s.(owner := Watching, watcher := Resumed)
    case WatchLoad => s.(watcher := Loaded(s.count))
    case WatchStore => s.(count := s.watcher.register + BONUS, watcher := Testing)
    case WatchUnlock => s.(owner := Free, watcher := Finished)
  }

  function AfterWorker(p: Program, s: State, e: Event): State
    requires !Watches(e) && WorkerMay(p, s, e)
  {
    var w := s.workers[e.k];
    match e
    case Lock(k) => s.(owner := Incrementing(k), workers := s.workers[k := w.(place := Locked)])
    case Load(k) => s.(workers := s.workers[k := w.(place := Read(s.count))])
    case Store(k) => s.(count := w.place.register + 1, workers := s.workers[k := w.(place := Checking)])
    case Check(k) =>
      s.(workers := s.workers[k := w.(place := if s.count == p.limit then Signalling else Unlocking)])
    case Signal(k) =>
      s.(watcher := if s.watcher.Waiting? then Woken else s.watcher,
         workers := s.workers[k := w.(place := Unlocking)])
    case Unlock(k) => s.(owner := Free, workers := s.workers[k := Worker(w.i + 1, Idle)])
  }

  function After(p: Program, s: State, e: Event): State
    requires Enabled(p, s, e)
  {
    if Watches(e) then AfterWatcher(p, s, e) else AfterWorker(p, s, e)
  }

  /** Where the steps `es` lead from the start, if each can be taken in turn. */
  function Run(p: Program, es: seq<Event>): Option<State> {
    if es == [] then Some(Start(p))
    else
      match Run(p, es[..|es| - 1])
      case None => None
      case Some(s) =>
        var e := es[|es| - 1];
        if Enabled(p, s, e) then Some(After(p, s, e)) else None
  }

  // ----- what a run did -----

  function Wakeups(es: seq<Event>): nat {
    if es == [] then 0 else Wakeups(es[..|es| - 1]) + if es[|es| - 1].WatchStore? then 1 else 0
  }

  function Signals(es: seq<Event>): nat {
    if es == [] then 0 else Signals(es[..|es| - 1]) + if es[|es| - 1].Signal? then 1 else 0
  }

  /** How often the watcher woke without having been signalled. */
  function Spurious(es: seq<Event>): nat {
    if es == [] then 0 else Spurious(es[..|es| - 1]) + if es[|es| - 1].WatchWake? then 1 else 0
  }

  /** No watcher in `es` wakes without having been signalled. */
  predicate NoSpurious(es: seq<Event>) {
    forall j :: 0 <= j < |es| ==> es[j] != WatchWake
  }

  function Total(f: Worker -> nat, ws: seq<Worker>): nat {
    if ws == [] then 0 else Total(f, ws[..|ws| - 1]) + f(ws[|ws| - 1])
  }

  /** How often this thread has raised the counter. */
  function Raised(w: Worker): nat {
    w.i + if w.place.Checking? || w.place.Signalling? || w.place.Unlocking? then 1 else 0
  }

  /** How many steps this thread has taken, signals aside. */
  function Taken(w: Worker): nat {
    5 * w.i +
    match w.place
    case Idle => 0
    case Locked => 1
    case Read(_) => 2
    case Checking => 3
    case Signalling => 4
    case Unlocking => 4
  }

  function WatcherTaken(w: Watcher): nat {
    match w
    case Starting => 0
    case Testing => 1
    case AboutToWait => 2
    case Waiting => 3
    case Woken => 4
    case Resumed => 5
    case Loaded(_) => 6
    case Leaving => 2
    case Finished => 3
  }

  lemma {:induction false} TotalUpdate(f: Worker -> nat, ws: seq<Worker>, k: nat, w: Worker)
    requires k < |ws|
    ensures Total(f, ws[k := w]) == Total(f, ws) - f(ws[k]) + f(w)
  {
    var n := |ws| - 1;
    if k == n {
      assert ws[k := w][..n] == ws[..n];
    } else {
      assert ws[k := w][..n] == ws[..n][k := w];
      TotalUpdate(f, ws[..n], k, w);
    }
  }

  /** If every thread contributes at most `b`, they contribute at most `b` each. */
  lemma {:induction false} TotalAtMost(f: Worker -> nat, ws: seq<Worker>, b: nat)
    requires forall k :: 0 <= k < |ws| ==> f(ws[k]) <= b
    ensures Total(f, ws) <= |ws| * b
  {
    if ws != [] { TotalAtMost(f, ws[..|ws| - 1], b); }
  }

  lemma {:induction false} TotalExactly(f: Worker -> nat, ws: seq<Worker>, b: nat)
    requires forall k :: 0 <= k < |ws| ==> f(ws[k]) == b
    ensures Total(f, ws) == |ws| * b
  {
    if ws != [] { TotalExactly(f, ws[..|ws| - 1], b); }
  }

  // ----- what every reachable state keeps -----

  predicate WatcherHolds(w: Watcher) {
    w.Testing? || w.AboutToWait? || w.Resumed? || w.Loaded? || w.Leaving?
  }

  /** Whoever is inside a critical section owns the mutex, and an owner is inside one. */
  predicate MutualExclusion(s: State) {
    && (s.owner == Watching <==> WatcherHolds(s.watcher))
    && (forall k :: 0 <= k < |s.workers| ==>
          (s.owner == Incrementing(k) <==> !s.workers[k].place.Idle?))
    && (s.owner.Incrementing? ==> s.owner.thread < |s.workers|)
  }

  /** A watcher asleep and not signalled misses nothing: the limit is not reached,
      or the thread that just reached it is still to signal. */
  predicate NoLostWakeup(p: Program, s: State) {
    s.watcher.Waiting? ==> s.count < p.limit || AboutToSignal(p, s)
  }

  predicate AboutToSignal(p: Program, s: State) {
    && s.count == p.limit
    && s.owner.Incrementing?
    && s.owner.thread < |s.workers|
    && var w := s.workers[s.owner.thread].place; w.Checking? || w.Signalling?
  }

  predicate WorkerOk(p: Program, s: State, w: Worker) {
    && w.i <= p.rounds
    && (!w.place.Idle? ==> w.i < p.rounds)
    && (w.place.Read? ==> w.place.register == s.count)
    && (w.place.Signalling? ==> s.count == p.limit)
  }

  predicate WatcherOk(p: Program, s: State, wakeups: nat) {
    match s.watcher
    case Starting => wakeups == 0
    case Testing => wakeups > 0 ==> BONUS * (wakeups - 1) < p.limit
    case AboutToWait => s.count < p.limit && BONUS * wakeups < p.limit
    case Waiting => BONUS * wakeups < p.limit
    case Woken => BONUS * wakeups < p.limit
    case Resumed => BONUS * wakeups < p.limit
    case Loaded(r) => r == s.count && BONUS * wakeups < p.limit
    case _ => s.count >= p.limit && (wakeups > 0 ==> BONUS * (wakeups - 1) < p.limit)
  }

  /** A signal has been sent only once the limit is reached, and no thread is about to send another. */
  predicate SignalsOk(p: Program, s: State, signals: nat) {
    signals <= 1 &&
    (signals == 1 ==> s.count >= p.limit && !AboutToSignal(p, s))
  }

  predicate Invariant(p: Program, s: State, wakeups: nat, signals: nat, steps: nat) {
    Control(p, s, wakeups, signals) && Tally(s, wakeups, signals, steps)
  }

  predicate Control(p: Program, s: State, wakeups: nat, signals: nat) {
    && |s.workers| == p.threads
    && MutualExclusion(s)
    && NoLostWakeup(p, s)
    && (forall k :: 0 <= k < |s.workers| ==> WorkerOk(p, s, s.workers[k]))
    && WatcherOk(p, s, wakeups)
    && SignalsOk(p, s, signals)
  }

  /** The counter holds every increment and every wake-up, and the steps taken are accounted for. */
  predicate Tally(s: State, wakeups: nat, signals: nat, steps: nat) {
    && s.count == Total(Raised, s.workers) + BONUS * wakeups
    && steps <= Total(Taken, s.workers) + signals + WatcherTaken(s.watcher) + 6 * wakeups
  }

  predicate Holds(p: Program, es: seq<Event>, s: State) {
    Invariant(p, s, Wakeups(es), Signals(es), |es|)
  }

  lemma WatcherKeeps(p: Program, s: State, e: Event, wakeups: nat, signals: nat, steps: nat)
    requires Invariant(p, s, wakeups, signals, steps)
    requires Watches(e) && WatcherMay(s, e)
    ensures Invariant(p, AfterWatcher(p, s, e),
                      wakeups + if e.WatchStore? then 1 else 0, signals, steps + 1)
  {
    var t := AfterWatcher(p, s, e);
    assert forall k :: 0 <= k < |t.workers| ==> t.workers[k] == s.workers[k];
    assert e.WatchStore? ==> forall k :: 0 <= k < |s.workers| ==> s.workers[k].place.Idle?;
  }

  lemma WorkerKeeps(p: Program, s: State, e: Event, wakeups: nat, signals: nat, steps: nat)
    requires Invariant(p, s, wakeups, signals, steps)
    requires !Watches(e) && WorkerMay(p, s, e)
    ensures Invariant(p, AfterWorker(p, s, e), wakeups,
                      signals + if e.Signal? then 1 else 0, steps + 1)
  {
    WorkerKeepsControl(p, s, e, wakeups, signals);
    WorkerTallies(p, s, e, wakeups, signals, steps);
  }

  lemma WorkerKeepsControl(p: Program, s: State, e: Event, wakeups: nat, signals: nat)
    requires Control(p, s, wakeups, signals)
    requires !Watches(e) && WorkerMay(p, s, e)
    ensures Control(p, AfterWorker(p, s, e), wakeups, signals + if e.Signal? then 1 else 0)
  {
    assert !e.Lock? ==> s.owner == Incrementing(e.k);
  }

  lemma WorkerTallies(p: Program, s: State, e: Event, wakeups: nat, signals: nat, steps: nat)
    requires !Watches(e) && WorkerMay(p, s, e) && WorkerOk(p, s, s.workers[e.k]) && Tally(s, wakeups, signals, steps)
    ensures Tally(AfterWorker(p, s, e), wakeups, signals + if e.Signal? then 1 else 0, steps + 1)
  {
    var t := AfterWorker(p, s, e);
    WorkerCounts(p, s, e);
    TotalUpdate(Raised, s.workers, e.k, t.workers[e.k]);
    TotalUpdate(Taken, s.workers, e.k, t.workers[e.k]);
  }

  /** What a thread's step adds to its own counts. */
  lemma WorkerCounts(p: Program, s: State, e: Event)
    requires !Watches(e) && WorkerMay(p, s, e) && WorkerOk(p, s, s.workers[e.k])
    ensures var t := AfterWorker(p, s, e);
            && |t.workers| == |s.workers| && t.workers == s.workers[e.k := t.workers[e.k]]
            && t.count - s.count == Raised(t.workers[e.k]) - Raised(s.workers[e.k])
            && Taken(t.workers[e.k]) - Taken(s.workers[e.k]) == (if e.Signal? then 0 else 1)
            && WatcherTaken(t.watcher) >= WatcherTaken(s.watcher)
  {
  }

  lemma StepKeeps(p: Program, s: State, e: Event, wakeups: nat, signals: nat, steps: nat)
    requires Invariant(p, s, wakeups, signals, steps) && Enabled(p, s, e)
    ensures Invariant(p, After(p, s, e), wakeups + (if e.WatchStore? then 1 else 0),
                      signals + (if e.Signal? then 1 else 0), steps + 1)
  {
    if Watches(e) {
      WatcherKeeps(p, s, e, wakeups, signals, steps);
    } else {
      WorkerKeeps(p, s, e, wakeups, signals, steps);
    }
  }

  lemma StartHolds(p: Program)
    ensures Invariant(p, Start(p), 0, 0, 0)
  {
    TotalExactly(Raised, Start(p).workers, 0);
    TotalExactly(Taken, Start(p).workers, 0);
  }

  /** Every state of every run keeps the invariant, spurious wake-ups included. */
  lemma {:induction false} RunKeeps(p: Program, es: seq<Event>)
    ensures Run(p, es).Some? ==> Holds(p, es, Run(p, es).value)
  {
    if es == [] {
      StartHolds(p);
    } else {
      var before := es[..|es| - 1];
      RunKeeps(p, before);
      if Run(p, es).Some? {
        StepKeeps(p, Run(p, before).value, es[|es| - 1], Wakeups(before), Signals(before), |before|);
      }
    }
  }

  // ----- consequences -----

  predicate Complete(p: Program, s: State) {
    s.watcher.Finished? && AllRaised(p, s)
  }

  predicate AllRaised(p: Program, s: State) {
    forall k :: 0 <= k < |s.workers| ==> s.workers[k] == Worker(p.rounds, Idle)
  }

  /** The shared counter loses no update: once all threads are through, it is what
      they added together with the watcher's share. */
  lemma FinalCount(p: Program, es: seq<Event>, s: State)
    requires Run(p, es) == Some(s) && AllRaised(p, s)
    ensures s.count == Increments(p) + BONUS * Wakeups(es)
  {
    RunKeeps(p, es);
    TotalExactly(Raised, s.workers, p.rounds);
  }

  /** The watcher wakes up a bounded number of times, however many wake-ups are
      spurious, and the threshold is announced at most once. */
  lemma FewWakeups(p: Program, es: seq<Event>)
    requires Run(p, es).Some?
    ensures Wakeups(es) > 0 ==> BONUS * (Wakeups(es) - 1) < p.limit
    ensures Signals(es) <= 1
  {
    RunKeeps(p, es);
  }

  /** Every wake-up has its cause: the one signal, or a spurious wake-up of its own. */
  lemma {:induction false} WakeupsHaveCauses(p: Program, es: seq<Event>)
    requires Run(p, es).Some?
    ensures var w := Run(p, es).value.watcher;
            Wakeups(es) + (if w.Woken? || w.Resumed? || w.Loaded? then 1 else 0)
            <= Signals(es) + Spurious(es)
  {
    if es != [] { WakeupsHaveCauses(p, es[..|es| - 1]); }
  }

  /** An upper bound for the steps of any run. */
  function Longest(p: Program): nat {
    5 * Increments(p) + 6 * MostWakeups(p) + 7
  }

  function Increments(p: Program): nat {
    p.threads * p.rounds
  }

  function MostWakeups(p: Program): nat {
    if p.limit > 0 then p.limit / BONUS + 1 else 0
  }

  lemma WakeupsBounded(p: Program, wakeups: nat)
    requires wakeups > 0 ==> 0 < p.limit && BONUS * (wakeups - 1) < p.limit
    ensures wakeups <= MostWakeups(p)
  {
  }

  lemma StepsBounded(p: Program, ws: seq<Worker>, s: State)
    requires |ws| == p.threads
    requires forall k :: 0 <= k < |ws| ==> WorkerOk(p, s, ws[k])
    ensures Total(Taken, ws) <= 5 * Increments(p)
  {
    TotalAtMost(Taken, ws, 5 * p.rounds);
    FiveEach(p);
  }

  lemma FiveEach(p: Program)
    ensures p.threads * (5 * p.rounds) == 5 * Increments(p)
  {
  }

  /** Every run ends: none is longer than `Longest`, spurious wake-ups included. */
  lemma RunsEnd(p: Program, es: seq<Event>)
    requires Run(p, es).Some?
    ensures |es| <= Longest(p)
  {
    RunKeeps(p, es);
    var s := Run(p, es).value;
    StepsBounded(p, s.workers, s);
    WakeupsBounded(p, Wakeups(es));
  }

  /** The one way to be stuck: everything is counted and the watcher sleeps below the limit. */
  predicate Stranded(p: Program, s: State) {
    s.watcher.Waiting? && s.count < p.limit && AllRaised(p, s)
  }

  /** A state from which only a spurious wake-up could lead on. */
  ghost predicate Stuck(p: Program, s: State) {
    forall e :: Enabled(p, s, e) ==> e == WatchWake
  }

  /** The step that whoever holds the mutex, or else whoever may take it, is to take next. */
  function Next(p: Program, s: State): (e: Event)
    requires MutualExclusion(s)
  {
    match s.owner
    case Watching =>
      (match s.watcher
       case Testing => WatchTest
       case AboutToWait => WatchWait
       case Resumed => WatchLoad
       case Loaded(_) => WatchStore
       case _ => WatchUnlock)
    case Incrementing(k) =>
      (match s.workers[k].place
       case Locked => Load(k)
       case Read(_) => Store(k)
       case Checking => Check(k)
       case Signalling => Signal(k)
       case _ => Unlock(k))
    case Free =>
      if s.watcher.Starting? then WatchLock
      else if s.watcher.Woken? then WatchRelock
      else Lock(Behind(p, s.workers))
  }

  /** The first thread with rounds left, or the number of threads. */
  function Behind(p: Program, ws: seq<Worker>): (k: nat)
    ensures k <= |ws|
    ensures k < |ws| ==> ws[k].i < p.rounds
    ensures forall j :: 0 <= j < k ==> ws[j].i >= p.rounds
  {
    if ws == [] then 0
    else if ws[0].i < p.rounds then 0
    else
      var k := Behind(p, ws[1..]);
      assert forall j :: 1 <= j < k + 1 ==> ws[j] == ws[1..][j - 1];
      k + 1
  }

  /** In every reachable state a step other than a spurious wake-up can be taken,
      unless all is done or the watcher is stranded. */
  lemma Progress(p: Program, es: seq<Event>, s: State)
    requires Run(p, es) == Some(s)
    ensures MutualExclusion(s)
    ensures Next(p, s) != WatchWake
    ensures Enabled(p, s, Next(p, s)) <==> !Complete(p, s) && !Stranded(p, s)
    ensures Stuck(p, s) <==> Complete(p, s) || Stranded(p, s)
  {
    RunKeeps(p, es);
    NextIsEnabled(p, s, Wakeups(es), Signals(es));
    StuckAtTheEnd(p, s, Wakeups(es), Signals(es));
  }

  lemma NextIsEnabled(p: Program, s: State, wakeups: nat, signals: nat)
    requires Control(p, s, wakeups, signals)
    ensures Next(p, s) != WatchWake
    ensures Enabled(p, s, Next(p, s)) <==> !Complete(p, s) && !Stranded(p, s)
  {
    if s.owner.Free? {
      FreeMutex(p, s, wakeups, signals);
    }
  }

  /** With the mutex free all threads are between rounds, and a sleeping watcher is below the limit. */
  lemma FreeMutex(p: Program, s: State, wakeups: nat, signals: nat)
    requires Control(p, s, wakeups, signals) && s.owner.Free?
    ensures s.watcher.Starting? || s.watcher.Waiting? || s.watcher.Woken? || s.watcher.Finished?
    ensures s.watcher.Waiting? ==> s.count < p.limit
    ensures var k := Behind(p, s.workers);
            if k < |s.workers| then s.workers[k].place.Idle? else AllRaised(p, s)
    ensures Behind(p, s.workers) < |s.workers| ==> !AllRaised(p, s)
  {
    var k := Behind(p, s.workers);
    forall j | 0 <= j < |s.workers| ensures s.workers[j].place.Idle? && s.workers[j].i <= p.rounds {
      assert WorkerOk(p, s, s.workers[j]);
    }
  }

  lemma StuckAtTheEnd(p: Program, s: State, wakeups: nat, signals: nat)
    requires Control(p, s, wakeups, signals)
    ensures Stuck(p, s) <==> Complete(p, s) || Stranded(p, s)
  {
    NextIsEnabled(p, s, wakeups, signals);
  }

  /** If the increments can reach the limit, no reachable state is stranded. */
  lemma NeverStranded(p: Program, es: seq<Event>, s: State)
    requires Run(p, es) == Some(s)
    requires p.limit <= Increments(p)
    ensures !Stranded(p, s)
  {
    if AllRaised(p, s) { FinalCount(p, es, s); }
  }

  /** The run `es` can be carried on to the end without a spurious wake-up. */
  ghost predicate CanFinish(p: Program, es: seq<Event>) {
    exists more :: Finishes(p, es, more)
  }

  predicate Finishes(p: Program, es: seq<Event>, more: seq<Event>) {
    && NoSpurious(more)
    && var end := Run(p, es + more);
    && end.Some? && Complete(p, end.value)
  }

  /** With enough increments, every run can be finished, from wherever it stands. */
  lemma {:induction false} EnoughCanFinish(p: Program, es: seq<Event>)
    requires Run(p, es).Some?
    requires p.limit <= Increments(p)
    ensures CanFinish(p, es)
    decreases Longest(p) - |es|
  {
    var s := Run(p, es).value;
    RunsEnd(p, es);
    NeverStranded(p, es, s);
    Progress(p, es, s);
    if Complete(p, s) {
      assert es + [] == es;
      assert Finishes(p, es, []);
    } else {
      var e := Next(p, s);
      var es' := Extend(p, es, e);
      RunsEnd(p, es');
      EnoughCanFinish(p, es');
      FinishEarlier(p, es, e);
    }
  }

  lemma FinishEarlier(p: Program, es: seq<Event>, e: Event)
    requires e != WatchWake && CanFinish(p, es + [e])
    ensures CanFinish(p, es)
  {
    var more :| Finishes(p, es + [e], more);
    assert es + [e] + more == es + ([e] + more);
    assert Finishes(p, es, [e] + more);
  }

  /** Taking one more step. */
  lemma Extend(p: Program, es: seq<Event>, e: Event) returns (es': seq<Event>)
    requires Run(p, es).Some? && Enabled(p, Run(p, es).value, e)
    ensures es' == es + [e]
    ensures Run(p, es') == Some(After(p, Run(p, es).value, e))
    ensures Wakeups(es') == Wakeups(es) + if e.WatchStore? then 1 else 0
  {
    es' := es + [e];
    assert es'[..|es'| - 1] == es;
  }

  // ----- too few increments -----

  /** One whole round of thread `k` while the watcher sleeps and the limit stays out of reach. */
  lemma SleepingRound(p: Program, es: seq<Event>, k: nat) returns (es': seq<Event>)
    requires Run(p, es).Some?
    requires var s := Run(p, es).value;
             && s.watcher.Waiting? && s.owner.Free? && s.count + 1 < p.limit
             && k < |s.workers| && s.workers[k].place.Idle? && s.workers[k].i < p.rounds
    ensures Run(p, es').Some?
    ensures var s, s' := Run(p, es).value, Run(p, es').value;
            && s'.watcher.Waiting? && s'.owner.Free?
            && |es'| == |es| + 5
            && Wakeups(es') == Wakeups(es)
  {
    es' := es;
    es' := Extend(p, es', Lock(k));
    es' := Extend(p, es', Load(k));
    es' := Extend(p, es', Store(k));
    es' := Extend(p, es', Check(k));
    es' := Extend(p, es', Unlock(k));
  }

  /** A watcher asleep with no wake-up so far, and too few increments, ends up stranded. */
  lemma {:induction false} SleepOn(p: Program, es: seq<Event>) returns (es': seq<Event>)
    requires Run(p, es).Some?
    requires Increments(p) < p.limit
    requires var s := Run(p, es).value; s.watcher.Waiting? && s.owner.Free?
    requires Wakeups(es) == 0
    ensures Run(p, es').Some? && Stranded(p, Run(p, es').value)
    decreases Longest(p) - |es|
  {
    var s := Run(p, es).value;
    RunKeeps(p, es);
    RunsEnd(p, es);
    var k := Behind(p, s.workers);
    if k == |s.workers| {
      FinalCount(p, es, s);
      es' := es;
    } else {
      RoomBelow(p, s.workers, k);
      es' := SleepingRound(p, es, k);
      RunsEnd(p, es');
      es' := SleepOn(p, es');
    }
  }

  lemma RoomBelow(p: Program, ws: seq<Worker>, k: nat)
    requires k < |ws| && ws[k] == Worker(ws[k].i, Idle) && ws[k].i < p.rounds
    requires forall j :: 0 <= j < |ws| ==> Raised(ws[j]) <= p.rounds
    ensures Total(Raised, ws) + 1 <= |ws| * p.rounds
  {
    var w := Worker(ws[k].i + 1, Idle);
    TotalUpdate(Raised, ws, k, w);
    TotalAtMost(Raised, ws[k := w], p.rounds);
  }

  /** With too few increments, some run leaves the watcher asleep for ever. */
  lemma TooFewStrand(p: Program) returns (es: seq<Event>)
    requires Increments(p) < p.limit
    ensures Run(p, es).Some? && Stranded(p, Run(p, es).value)
    ensures !CanFinish(p, es)
  {
    es := [];
    assert Run(p, es) == Some(Start(p));
    es := Extend(p, es, WatchLock);
    es := Extend(p, es, WatchTest);
    es := Extend(p, es, WatchWait);
    es := SleepOn(p, es);
    StrandedStays(p, es);
  }

  lemma StrandedStays(p: Program, es: seq<Event>)
    requires Run(p, es).Some? && Stranded(p, Run(p, es).value)
    ensures !CanFinish(p, es)
  {
    Progress(p, es, Run(p, es).value);
    forall more | NoSpurious(more) && Run(p, es + more).Some?
      ensures more == []
    {
      if more != [] { PrefixRuns(p, es + [more[0]], more[1..], es + more); }
    }
    assert es + [] == es;
  }

  /** Whatever a run does later, its beginning is a run. */
  lemma {:induction false} PrefixRuns(p: Program, es: seq<Event>, more: seq<Event>, all: seq<Event>)
    requires all == es + more && Run(p, all).Some?
    ensures Run(p, es).Some?
    decreases |more|
  {
    if more == [] {
      assert all == es;
    } else {
      var n := |more| - 1;
      assert all[..|all| - 1] == es + more[..n];
      PrefixRuns(p, es, more[..n], es + more[..n]);
    }
  }

  /** The program is free of deadlock exactly when the increments can reach the limit. */
  lemma FinishesIffEnough(p: Program)
    ensures (forall es :: Run(p, es).Some? ==> CanFinish(p, es)) <==> p.limit <= Increments(p)
  {
    if p.limit <= Increments(p) {
      forall es | Run(p, es).Some? ensures CanFinish(p, es) { EnoughCanFinish(p, es); }
    } else {
      var es := TooFewStrand(p);
    }
  }

  // ----- all interleavings are there -----

  /** What can happen in a reachable state: with the mutex free, every thread with rounds left can
      take it, and so can a watcher that starts or has woken; a sleeping watcher can wake at any
      time, with or without a signal. */
  lemma Choices(p: Program, es: seq<Event>, s: State)
    requires Run(p, es) == Some(s)
    ensures |s.workers| == p.threads
    ensures forall k: nat {:trigger Enabled(p, s, Lock(k))} ::
              Enabled(p, s, Lock(k)) <==> k < p.threads && s.owner.Free? && s.workers[k].i < p.rounds
    ensures Enabled(p, s, WatchLock) <==> s.owner.Free? && s.watcher.Starting?
    ensures Enabled(p, s, WatchRelock) <==> s.owner.Free? && s.watcher.Woken?
    ensures Enabled(p, s, WatchWake) <==> s.watcher.Waiting?
  {
    RunKeeps(p, es);
  }

  /** The threads in the order in which they took the mutex. */
  function Locks(es: seq<Event>): seq<nat> {
    if es == [] then []
    else
      var e := es[|es| - 1];
      Locks(es[..|es| - 1]) + if e.Lock? then [e.k] else []
  }

  /** One step further along a run `es`, with what it adds to the locks. */
  lemma Onward(p: Program, es: seq<Event>, e: Event) returns (es': seq<Event>)
    requires Run(p, es).Some? && Enabled(p, Run(p, es).value, e)
    ensures es' == es + [e] && Run(p, es') == Some(After(p, Run(p, es).value, e))
    ensures Locks(es') == Locks(es) + if e.Lock? then [e.k] else []
  {
    es' := Extend(p, es, e);
    assert es'[..|es'| - 1] == es;
  }

  /** Whatever has happened so far, any thread with rounds left can have the next round. */
  lemma Round(p: Program, es: seq<Event>, k: nat) returns (es': seq<Event>)
    requires Run(p, es).Some?
    requires var s := Run(p, es).value; s.owner.Free? && k < p.threads && |s.workers| == p.threads && s.workers[k].i < p.rounds
    ensures es <= es' && Run(p, es').Some? && Locks(es') == Locks(es) + [k]
    ensures var s, s' := Run(p, es).value, Run(p, es').value;
            && s'.owner.Free? && |s.workers| == p.threads && s'.workers == s.workers[k := Worker(s.workers[k].i + 1, Idle)]
            && (!s.watcher.Waiting? ==> s'.watcher == s.watcher)
  {
    CanLock(p, es, k);
    es' := Raise(p, es, k);
    es' := Leave(p, es', k);
  }

  lemma CanLock(p: Program, es: seq<Event>, k: nat)
    requires Run(p, es).Some?
    requires var s := Run(p, es).value; s.owner.Free? && k < |s.workers| && s.workers[k].i < p.rounds
    ensures Enabled(p, Run(p, es).value, Lock(k))
  {
    Choices(p, es, Run(p, es).value);
    assert Enabled(p, Run(p, es).value, Lock(k));
  }

  /** The first half of a round: the counter is raised. */
  lemma Raise(p: Program, es: seq<Event>, k: nat) returns (es': seq<Event>)
    requires Run(p, es).Some? && Enabled(p, Run(p, es).value, Lock(k))
    ensures es <= es' && Run(p, es').Some? && Locks(es') == Locks(es) + [k]
    ensures var s := Run(p, es).value;
            && k < |s.workers|
            && Run(p, es').value == s.(count := s.count + 1, owner := Incrementing(k),
                                       workers := s.workers[k := Worker(s.workers[k].i, Checking)])
  {
    es' := Onward(p, es, Lock(k));
    es' := Onward(p, es', Load(k));
    es' := Onward(p, es', Store(k));
  }

  /** The second half: the check, a signal if it is due, and the way out. */
  lemma Leave(p: Program, es: seq<Event>, k: nat) returns (es': seq<Event>)
    requires Run(p, es).Some? && k < |Run(p, es).value.workers| && Run(p, es).value.workers[k].place.Checking?
    ensures es <= es' && Run(p, es').Some? && Locks(es') == Locks(es)
    ensures var s, s' := Run(p, es).value, Run(p, es').value;
            && k < |s.workers| && s'.owner.Free? && s'.workers == s.workers[k := Worker(s.workers[k].i + 1, Idle)]
            && (!s.watcher.Waiting? ==> s'.watcher == s.watcher)
  {
    es' := Onward(p, es, Check(k));
    es' := SignalIfDue(p, es', k);
    es' := Onward(p, es', Unlock(k));
  }

  lemma SignalIfDue(p: Program, es: seq<Event>, k: nat) returns (es': seq<Event>)
    requires Run(p, es).Some? && k < |Run(p, es).value.workers|
    requires var at := Run(p, es).value.workers[k].place; at.Signalling? || at.Unlocking?
    ensures es <= es' && Run(p, es').Some? && Locks(es') == Locks(es)
    ensures var s, s' := Run(p, es).value, Run(p, es').value;
            && k < |s.workers| && s'.workers == s.workers[k := Worker(s.workers[k].i, Unlocking)]
            && (!s.watcher.Waiting? ==> s'.watcher == s.watcher)
  {
    es' := es;
    if Run(p, es).value.workers[k].place.Signalling? { es' := Onward(p, es, Signal(k)); }
  }

  /** How often thread `k` is in `ks`. */
  function Times(ks: seq<nat>, k: nat): nat {
    if ks == [] then 0 else (if ks[0] == k then 1 else 0) + Times(ks[1..], k)
  }

  lemma {:induction false} TimesOfTwo(a: seq<nat>, b: seq<nat>, k: nat)
    ensures Times(a + b, k) == Times(a, k) + Times(b, k)
  {
    if a == [] {
      assert a + b == b;
    } else {
      TimesOfTwo(a[1..], b, k);
      assert (a + b)[1..] == a[1..] + b;
    }
  }

  /** The rounds of the threads `ks`, in that order, can follow a run. */
  lemma {:induction false} Rounds(p: Program, es: seq<Event>, ks: seq<nat>) returns (es': seq<Event>)
    requires Run(p, es).Some? && |Run(p, es).value.workers| == p.threads && Run(p, es).value.owner.Free?
    requires forall j :: 0 <= j < |ks| ==> ks[j] < p.threads
    requires forall k: nat :: k < p.threads ==> Run(p, es).value.workers[k].i + Times(ks, k) <= p.rounds
    ensures es <= es' && Run(p, es').Some? && Locks(es') == Locks(es) + ks
    ensures var s, s' := Run(p, es).value, Run(p, es').value;
            && s'.owner.Free? && |s'.workers| == |s.workers| == p.threads
            && (forall k: nat :: k < p.threads ==> s'.workers[k].i == s.workers[k].i + Times(ks, k))
            && (!s.watcher.Waiting? ==> s'.watcher == s.watcher)
    decreases |ks|
  {
    if ks == [] {
      es' := es;
    } else {
      var rest := ks[1..];
      var es1 := Round(p, es, ks[0]);
      es' := Rounds(p, es1, rest);
      assert Locks(es) + [ks[0]] + rest == Locks(es) + ks;
    }
  }

  /** A watcher that starts can have the mutex next, and gives it back asleep or finished. */
  lemma WatchTurn(p: Program, es: seq<Event>) returns (es': seq<Event>)
    requires Run(p, es).Some? && Run(p, es).value.owner.Free? && Run(p, es).value.watcher.Starting?
    ensures es + [WatchLock] <= es' && Run(p, es').Some? && Locks(es') == Locks(es)
    ensures var s, s' := Run(p, es).value, Run(p, es').value;
            && s'.owner.Free? && s'.workers == s.workers && s'.count == s.count
            && (if s.count < p.limit then s'.watcher.Waiting? else s'.watcher.Finished?)
  {
    es' := Onward(p, es, WatchLock);
    es' := TestAndLeave(p, es');
  }

  /** The watcher tests the counter and sleeps or leaves. */
  lemma TestAndLeave(p: Program, es: seq<Event>) returns (es': seq<Event>)
    requires Run(p, es).Some? && Run(p, es).value.watcher.Testing?
    ensures es <= es' && Run(p, es').Some? && Locks(es') == Locks(es)
    ensures var s, s' := Run(p, es).value, Run(p, es').value;
            s' == s.(owner := Free, watcher := if s.count < p.limit then Waiting else Finished)
  {
    es' := Onward(p, es, WatchTest);
    if Run(p, es').value.watcher.AboutToWait? {
      es' := Onward(p, es', WatchWait);
    } else {
      es' := Onward(p, es', WatchUnlock);
    }
  }

  /** A sleeping watcher can wake without a signal, add its share and test again. */
  lemma SpuriousTurn(p: Program, es: seq<Event>) returns (es': seq<Event>)
    requires Run(p, es).Some? && Run(p, es).value.owner.Free? && Run(p, es).value.watcher.Waiting?
    ensures es + [WatchWake] <= es' && Run(p, es').Some? && Locks(es') == Locks(es)
    ensures var s, s' := Run(p, es).value, Run(p, es').value;
            && s'.owner.Free? && s'.workers == s.workers && s'.count == s.count + BONUS
            && (if s'.count < p.limit then s'.watcher.Waiting? else s'.watcher.Finished?)
  {
    es' := Onward(p, es, WatchWake);
    es' := Onward(p, es', WatchRelock);
    es' := Onward(p, es', WatchLoad);
    es' := Onward(p, es', WatchStore);
    es' := TestAndLeave(p, es');
  }

  /** For every order in which the threads can have their rounds, and every moment between two
      rounds for the watcher to start, there is a run. */
  lemma EveryOrder(p: Program, ks: seq<nat>, m: nat) returns (es: seq<Event>, i: nat)
    requires m <= |ks| && forall j :: 0 <= j < |ks| ==> ks[j] < p.threads
    requires forall k: nat :: k < p.threads ==> Times(ks, k) == p.rounds
    ensures Run(p, es).Some? && Locks(es) == ks && AllRaised(p, Run(p, es).value)
    ensures i < |es| && es[i] == WatchLock && Locks(es[..i]) == ks[..m]
  {
    var a, b := ks[..m], ks[m..];
    assert ks == a + b;
    forall k: nat | k < p.threads ensures Times(a, k) + Times(b, k) == p.rounds { TimesOfTwo(a, b, k); }
    assert Run(p, []) == Some(Start(p));
    var es1 := Rounds(p, [], a);
    i := |es1|;
    var es2 := WatchTurn(p, es1);
    es := Rounds(p, es2, b);
    assert es[..i] == es1 && es[i] == (es1 + [WatchLock])[i];
    RunKeeps(p, es);
    FreeMutexIdle(p, es, Run(p, es).value);
  }

  lemma FreeMutexIdle(p: Program, es: seq<Event>, s: State)
    requires Run(p, es) == Some(s) && s.owner.Free?
    ensures |s.workers| == p.threads && forall k :: 0 <= k < p.threads ==> s.workers[k].place.Idle?
  {
    RunKeeps(p, es);
  }

  /** The program as it is compiled: two threads of ten rounds and a limit of twelve.
      It always ends with the count at 20 or 145, the latter when the watcher slept. */
  lemma AsCompiled(es: seq<Event>)
    ensures var p := Program(2, 10, 12);
            Run(p, es).Some? ==>
              && CanFinish(p, es)
              && (Complete(p, Run(p, es).value) ==>
                    && Wakeups(es) <= 1
                    && Run(p, es).value.count == 20 + 125 * Wakeups(es))
  {
    var p := Program(2, 10, 12);
    if Run(p, es).Some? {
      EnoughCanFinish(p, es);
      FewWakeups(p, es);
      if Complete(p, Run(p, es).value) { FinalCount(p, es, Run(p, es).value); }
    }
  }
}
