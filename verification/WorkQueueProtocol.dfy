/**
  `hw2/wq.c`, concurrently: any number of threads, each calling `wq_push` and `wq_pop`
  any number of times, interleaved at every statement.  Waiting and signalling follow
  POSIX.1-2017, System Interfaces, pthread_cond_wait and pthread_cond_signal: a signal
  unblocks at least one waiter if there is one, a waiter may also wake spuriously, and
  waiting releases the mutex atomically and takes it again before returning.
 */
module WorkQueueProtocol {

  type Tid = nat

  // Where a thread is: the name says which statement it executes next.
  datatype Thread =
    | Idle
    | PushEnter(v: int)    // line 37, pthread_mutex_lock
    | PushAppend(v: int)   // line 38, DL_APPEND
    | PushCount            // line 39, size++
    | PushSignal           // line 40, pthread_cond_signal
    | PushLeave            // line 41, pthread_mutex_unlock
    | PopEnter             // line 20, pthread_mutex_lock
    | PopTest              // line 21, the loop test
    | PopAsleep            // line 22, blocked on the condition
    | PopWoken             // line 22, unblocked, about to take the mutex again
    | PopRead              // lines 24-25, reads the head
    | PopUncount(v: int)   // line 26, size--
    | PopRemove(v: int)    // line 27, DL_DELETE
    | PopLeave(v: int)     // line 28, pthread_mutex_unlock

  datatype Lock = Free | HeldBy(owner: Tid)

  // queue is the linked list; pushed is the history of line 38, popped that of the values with
  // which calls of wq_pop pass line 27, to return them.
  datatype State = State(threads: map<Tid, Thread>, lock: Lock, size: int, queue: seq<int>,
                         pushed: seq<int>, popped: seq<int>)

  datatype Act =
    | CallPush(t: Tid, v: int)
    | CallPop(t: Tid)
    | Signal(t: Tid, woken: set<Tid>)
    | SpuriousWake(t: Tid)
    | Step(t: Tid)

  ghost predicate HoldsLock(th: Thread) {
    th.PushAppend? || th.PushCount? || th.PushSignal? || th.PushLeave?
    || th.PopTest? || th.PopRead? || th.PopUncount? || th.PopRemove? || th.PopLeave?
  }

  // Inside wq_pop, not blocked on the condition, and not yet past size--.
  ghost predicate IsAwake(th: Thread) {
    th.PopEnter? || th.PopTest? || th.PopWoken? || th.PopRead? || th.PopUncount?
  }

  ghost predicate IsAsleep(th: Thread) {
    th.PopAsleep?
  }

  ghost function Where(threads: map<Tid, Thread>, p: Thread -> bool): set<Tid> {
    set t | t in threads && p(threads[t])
  }

  ghost function Awake(s: State): set<Tid> {
    Where(s.threads, IsAwake)
  }

  ghost function Asleep(s: State): set<Tid> {
    Where(s.threads, IsAsleep)
  }

  // ---------- The step relation ----------

  ghost predicate Enabled(s: State, a: Act) {
    a.t in s.threads &&
    var th := s.threads[a.t];
    match a
    case CallPush(_, _) => th.Idle?
    case CallPop(_) => th.Idle?
    case Signal(_, woken) => th.PushSignal? && woken <= Asleep(s) && (Asleep(s) != {} ==> woken != {})
    case SpuriousWake(_) => th.PopAsleep?
    case Step(_) =>
      if th.PushEnter? || th.PopEnter? || th.PopWoken? then s.lock.Free?
      else if th.PopRead? || th.PopRemove? then s.queue != []
      else HoldsLock(th) && !th.PushSignal?
  }

  ghost function Move(s: State, t: Tid, th: Thread): State {
    s.(threads := s.threads[t := th])
  }

  ghost function Signalled(threads: map<Tid, Thread>, t: Tid, woken: set<Tid>): map<Tid, Thread> {
    map u | u in threads :: if u == t then PushLeave else if u in woken then PopWoken else threads[u]
  }

  ghost function Do(s: State, a: Act): State
    requires Enabled(s, a)
  {
    var t := a.t;
    match a
    case CallPush(_, v) => Move(s, t, PushEnter(v))
    case CallPop(_) => Move(s, t, PopEnter)
    case SpuriousWake(_) => Move(s, t, PopWoken)
    case Signal(_, woken) =>
      s.(threads := Signalled(s.threads, t, woken))
    case Step(_) =>
      match s.threads[t]
      case PushEnter(v) => Move(s, t, PushAppend(v)).(lock := HeldBy(t))
      case PushAppend(v) => Move(s, t, PushCount).(queue := s.queue + [v], pushed := s.pushed + [v])
      case PushCount => Move(s, t, PushSignal).(size := s.size + 1)
      case PushLeave => Move(s, t, Idle).(lock := Free)
      case PopEnter => Move(s, t, PopTest).(lock := HeldBy(t))
      case PopTest => if s.size == 0 then Move(s, t, PopAsleep).(lock := Free) else Move(s, t, PopRead)
      case PopWoken => Move(s, t, PopTest).(lock := HeldBy(t))
      case PopRead => Move(s, t, PopUncount(s.queue[0]))
      case PopUncount(v) => Move(s, t, PopRemove(v)).(size := s.size - 1)
      case PopRemove(v) => Move(s, t, PopLeave(v)).(queue := s.queue[1..], popped := s.popped + [v])
      case PopLeave(v) => Move(s, t, Idle).(lock := Free)
      case _ => s
  }

  ghost predicate Init(s: State) {
    && (forall t :: t in s.threads ==> s.threads[t].Idle?)
    && s.lock.Free? && s.size == 0 && s.queue == [] && s.pushed == [] && s.popped == []
  }

  // A run: every act is enabled where it happens.
  ghost predicate Runs(s: State, acts: seq<Act>)
    decreases |acts|
  {
    acts != [] ==> Enabled(s, acts[0]) && Runs(Do(s, acts[0]), acts[1..])
  }

  ghost function After(s: State, acts: seq<Act>): State
    requires Runs(s, acts)
    decreases |acts|
  {
    if acts == [] then s else After(Do(s, acts[0]), acts[1..])
  }

  // ---------- The invariant ----------

  ghost predicate MutexOk(s: State) {
    && (s.lock.HeldBy? ==> s.lock.owner in s.threads && HoldsLock(s.threads[s.lock.owner]))
    && (forall t :: t in s.threads && HoldsLock(s.threads[t]) ==> s.lock == HeldBy(t))
  }

  ghost function Owner(s: State): Thread
    requires MutexOk(s)
  {
    if s.lock.Free? then Idle else s.threads[s.lock.owner]
  }

  // size counts the list, except between a list operation and its counter update.
  ghost predicate CountOk(s: State)
    requires MutexOk(s)
  {
    var o := Owner(s);
    && |s.queue| == s.size + (if o.PushCount? || o.PopRemove? then 1 else 0)
    && s.size >= 0
    && (o.PopRead? ==> s.size > 0)
    && (o.PopUncount? ==> s.size > 0 && o.v == s.queue[0])
    && (o.PopRemove? ==> o.v == s.queue[0])
    && (o.PopLeave? ==> s.popped != [] && o.v == s.popped[|s.popped| - 1])
  }

  // First in, first out, nothing lost, nothing twice.
  ghost predicate HistoryOk(s: State) {
    s.pushed == s.popped + s.queue
  }

  // If somebody sleeps, the items that are announced have an awake consumer each.
  ghost predicate WakeOk(s: State)
    requires MutexOk(s)
  {
    Asleep(s) != {} ==> s.size - (if Owner(s).PushSignal? then 1 else 0) <= |Awake(s)|
  }

  ghost predicate Inv(s: State) {
    MutexOk(s) && CountOk(s) && HistoryOk(s) && WakeOk(s)
  }

  // ---------- Every step keeps it ----------

  // How one thread's move changes such a set.
  lemma WhereMoved(threads: map<Tid, Thread>, t: Tid, th: Thread, p: Thread -> bool)
    requires t in threads
    ensures var (a, b) := (Where(threads, p), Where(threads[t := th], p));
      && b == (if p(th) then a + {t} else a - {t})
      && |b| == |a| + (if p(th) then 1 else 0) - (if p(threads[t]) then 1 else 0)
  {
    var a, b := Where(threads, p), Where(threads[t := th], p);
    var others := a - {t};
    assert b == if p(th) then others + {t} else others;
    assert a == if p(threads[t]) then others + {t} else others;
  }

  lemma MovesOne(s: State, a: Act)
    requires Enabled(s, a) && !a.Signal?
    ensures a.t in Do(s, a).threads && Do(s, a).threads == s.threads[a.t := Do(s, a).threads[a.t]]
  {
  }

  lemma MoveSets(s: State, a: Act)
    requires Enabled(s, a) && !a.Signal?
    ensures a.t in Do(s, a).threads
    ensures var (was, now) := (s.threads[a.t], Do(s, a).threads[a.t]);
      && Asleep(Do(s, a)) == (if IsAsleep(now) then Asleep(s) + {a.t} else Asleep(s) - {a.t})
      && |Awake(Do(s, a))| == |Awake(s)| + (if IsAwake(now) then 1 else 0) - (if IsAwake(was) then 1 else 0)
  {
    MovesOne(s, a);
    var th := Do(s, a).threads[a.t];
    WhereMoved(s.threads, a.t, th, IsAwake);
    WhereMoved(s.threads, a.t, th, IsAsleep);
  }

  // How a signal changes such a set, when the signaller is not in it before or after.
  lemma WhereSignalled(threads: map<Tid, Thread>, t: Tid, woken: set<Tid>, p: Thread -> bool)
    requires t in threads && t !in woken && woken <= threads.Keys
    requires !p(PushLeave) && !p(threads[t])
    ensures var (a, b) := (Where(threads, p), Where(Signalled(threads, t, woken), p));
      b == if p(PopWoken) then a + woken else a - woken
  {
    var now := Signalled(threads, t, woken);
    var a, b := Where(threads, p), Where(now, p);
    forall u: Tid
      ensures u in b <==> if p(PopWoken) then u in a || u in woken else u in a && u !in woken
    {
      if u in threads {
        assert now[u] == if u == t then PushLeave else if u in woken then PopWoken else threads[u];
      }
    }
  }

  lemma SignalSets(s: State, a: Act)
    requires a.Signal? && Enabled(s, a)
    ensures var s' := Do(s, a); Awake(s') == Awake(s) + a.woken && |Awake(s')| == |Awake(s)| + |a.woken|
    ensures Asleep(Do(s, a)) == Asleep(s) - a.woken
  {
    assert Awake(s) !! a.woken;
    WhereSignalled(s.threads, a.t, a.woken, IsAwake);
    WhereSignalled(s.threads, a.t, a.woken, IsAsleep);
  }

  lemma StepKeepsMutex(s: State, a: Act)
    requires MutexOk(s) && Enabled(s, a)
    ensures MutexOk(Do(s, a))
  {
  }

  lemma StepKeepsCount(s: State, a: Act)
    requires MutexOk(s) && CountOk(s) && HistoryOk(s) && Enabled(s, a)
    ensures MutexOk(Do(s, a)) && CountOk(Do(s, a)) && HistoryOk(Do(s, a))
  {
    StepKeepsMutex(s, a);
  }

  lemma StepKeepsWake(s: State, a: Act)
    requires Inv(s) && Enabled(s, a)
    ensures MutexOk(Do(s, a)) && WakeOk(Do(s, a))
  {
    StepKeepsMutex(s, a);
    if a.Signal? {
      SignalSets(s, a);
      if a.woken != {} {
        var u :| u in a.woken;
        assert |a.woken| == |a.woken - {u}| + 1;
      }
    } else {
      MoveSets(s, a);
    }
  }

  lemma StepKeepsInv(s: State, a: Act)
    requires Inv(s) && Enabled(s, a)
    ensures Inv(Do(s, a))
  {
    StepKeepsCount(s, a);
    StepKeepsWake(s, a);
  }

  lemma {:induction false} RunsKeepInv(s: State, acts: seq<Act>)
    requires Inv(s) && Runs(s, acts)
    ensures Inv(After(s, acts))
    decreases |acts|
  {
    if acts != [] {
      StepKeepsInv(s, acts[0]);
      RunsKeepInv(Do(s, acts[0]), acts[1..]);
    }
  }

  lemma InitInv(s: State)
    requires Init(s)
    ensures Inv(s)
  {
    assert Asleep(s) == {};
  }

  // ---------- What holds over every run ----------

  // Any interleaving of any number of calls: one thread at a time between lock and unlock, and
  // the sockets returned so far are the oldest ones pushed, in order; a call about to return
  // returns the last of them.
  lemma FirstInFirstOut(s0: State, acts: seq<Act>)
    requires Init(s0) && Runs(s0, acts)
    ensures var s := After(s0, acts);
      && s.popped <= s.pushed && s.pushed == s.popped + s.queue
      && (forall t, u ::
            t in s.threads && u in s.threads && HoldsLock(s.threads[t]) && HoldsLock(s.threads[u]) ==> t == u)
      && (forall t :: t in s.threads && s.threads[t].PopRead? ==> s.queue != [])
      && (forall t :: t in s.threads && s.threads[t].PopLeave? ==>
            s.popped != [] && s.threads[t].v == s.popped[|s.popped| - 1])
  {
    InitInv(s0);
    RunsKeepInv(s0, acts);
  }

  lemma NoLostWakeup(s0: State, acts: seq<Act>)
    requires Init(s0) && Runs(s0, acts)
    ensures var s := After(s0, acts);
      MutexOk(s) && (Asleep(s) != {} ==> s.size - (if Owner(s).PushSignal? then 1 else 0) <= |Awake(s)|)
  {
    InitInv(s0);
    RunsKeepInv(s0, acts);
  }

  // No thread can move on its own: what is left is to call in again, or to wake spuriously.
  ghost predicate Quiet(s: State) {
    forall a {:trigger Enabled(s, a)} :: Enabled(s, a) ==> a.CallPush? || a.CallPop? || a.SpuriousWake?
  }

  // When nothing moves any more, nobody holds the lock, every thread is either back from its
  // call or asleep in wq_pop, and nobody sleeps unless the queue is empty.
  lemma QuietMeansServed(s0: State, acts: seq<Act>)
    requires Init(s0) && Runs(s0, acts) && Quiet(After(s0, acts))
    ensures var s := After(s0, acts);
      && s.lock.Free?
      && (forall t :: t in s.threads ==> s.threads[t].Idle? || s.threads[t].PopAsleep?)
      && (Asleep(s) != {} ==> s.queue == [] && s.size == 0 && s.popped == s.pushed)
  {
    var s := After(s0, acts);
    InitInv(s0);
    RunsKeepInv(s0, acts);
    if s.lock.HeldBy? {
      var t := s.lock.owner;
      var a := if s.threads[t].PushSignal? then Signal(t, Asleep(s)) else Step(t);
      assert Enabled(s, a);
    }
    forall t | t in s.threads
      ensures s.threads[t].Idle? || s.threads[t].PopAsleep?
    {
      assert !Enabled(s, Step(t));
    }
    assert Awake(s) == {};
  }

  // ---------- Where the sockets come from ----------

  // The sockets wq_push was called with.
  function PassedToPush(acts: seq<Act>): multiset<int> {
    if acts == [] then multiset{}
    else (if acts[0].CallPush? then multiset{acts[0].v} else multiset{}) + PassedToPush(acts[1..])
  }

  // Is the thread in wq_push with socket v, which is not in the list yet?
  function Carrying(v: int): Thread -> bool {
    (th: Thread) => (th.PushEnter? || th.PushAppend?) && th.v == v
  }

  ghost function Accounted(s: State, v: int): int {
    multiset(s.pushed)[v] + |Where(s.threads, Carrying(v))|
  }

  lemma StepAccounts(s: State, a: Act, v: int)
    requires MutexOk(s) && Enabled(s, a)
    ensures Accounted(Do(s, a), v) == Accounted(s, v) + (if a.CallPush? && a.v == v then 1 else 0)
  {
    if a.Signal? {
      SignalAccounts(s, a, v);
    } else {
      MovesOne(s, a);
      OneAccounts(s, a, v);
      WhereMoved(s.threads, a.t, Do(s, a).threads[a.t], Carrying(v));
      hide Where, Do, Enabled, MutexOk, Carrying;
    }
  }

  // What a thread stops carrying it has put into the list.
  lemma OneAccounts(s: State, a: Act, v: int)
    requires MutexOk(s) && Enabled(s, a) && !a.Signal?
    requires a.t in Do(s, a).threads
    ensures var (was, now) := (Carrying(v)(s.threads[a.t]), Carrying(v)(Do(s, a).threads[a.t]));
      multiset(Do(s, a).pushed)[v] + (if now then 1 else 0)
        == multiset(s.pushed)[v] + (if was then 1 else 0) + (if a.CallPush? && a.v == v then 1 else 0)
  {
  }

  lemma SignalAccounts(s: State, a: Act, v: int)
    requires Enabled(s, a) && a.Signal?
    ensures Accounted(Do(s, a), v) == Accounted(s, v)
  {
    WhereSignalled(s.threads, a.t, a.woken, Carrying(v));
    assert Where(s.threads, Carrying(v)) - a.woken == Where(s.threads, Carrying(v));
  }

  lemma {:induction false} RunAccounts(s: State, acts: seq<Act>, v: int)
    requires Inv(s) && Runs(s, acts)
    ensures Accounted(After(s, acts), v) == Accounted(s, v) + PassedToPush(acts)[v]
    decreases |acts|
  {
    if acts != [] {
      StepAccounts(s, acts[0], v);
      StepKeepsInv(s, acts[0]);
      RunAccounts(Do(s, acts[0]), acts[1..], v);
    }
  }

  // Over every run each socket has been put into the list as often as wq_push was called with it,
  // but for the calls that have not come that far; so none is returned more often than it was passed.
  lemma PushedWasPassed(s0: State, acts: seq<Act>, v: int)
    requires Init(s0) && Runs(s0, acts)
    ensures var s := After(s0, acts);
      && multiset(s.pushed)[v] + |Where(s.threads, (th: Thread) => (th.PushEnter? || th.PushAppend?) && th.v == v)|
        == PassedToPush(acts)[v]
      && multiset(s.popped)[v] <= multiset(s.pushed)[v] <= PassedToPush(acts)[v]
  {
    InitInv(s0);
    RunsKeepInv(s0, acts);
    RunAccounts(s0, acts, v);
    assert Where(s0.threads, Carrying(v)) == {};
    var s := After(s0, acts);
    assert Where(s.threads, (th: Thread) => (th.PushEnter? || th.PushAppend?) && th.v == v)
      == Where(s.threads, Carrying(v));
    assert multiset(s.pushed) == multiset(s.popped) + multiset(s.queue);
  }
}
