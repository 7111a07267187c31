/**
 The sleep/notify protocol of src/nrf_modem.c as a step machine: any number of threads inside
 nrf_modem_os_timedwait, notifiers, shutdowns and changes of the modem state, interleaved in
 any order. A step is an action that the source makes atomic: a critical section, a semaphore
 operation, a test of the modem state, or one walk over the list of sleeping threads.
 */
module SleepNotify {

  type Tid = nat

  /** The three results of nrf_modem_os_timedwait: 0, -NRF_EAGAIN and -NRF_ESHUTDOWN. */
  datatype Result = Success | Again | ShutDown

  /** Where a thread stands in nrf_modem_os_timedwait, with the locals that are live there. */
  datatype Thread =
    | Outside
    | Entered(context: nat, timeout: int)
    | Prepared(context: nat, timeout: int, sem: nat)
    | Listed(context: nat, timeout: int, sem: nat)
    | Awake(context: nat, timeout: int, sem: nat, err: bool)
    | Unlisted(context: nat, timeout: int, err: bool)
  {
    /** Between list_append and list_remove. */
    predicate OnList() {
      Listed? || Awake?
    }
  }

  /** fault is set once a walk touches the stack frame of a thread that is not on the list. */
  datatype State = State(initialised: bool, ring: seq<Tid>, threads: map<Tid, Thread>, fault: bool)

  datatype Step =
    | Call(t: Tid, context: nat, timeout: int)
    | Leave(t: Tid, early: Result)
    | Prepare(t: Tid)
    | Append(t: Tid)
    | Take(t: Tid)
    | Expire(t: Tid)
    | Remove(t: Tid)
    | Return(t: Tid, result: Result)
    | Notify(event: nat)
    | Shutdown
    | SetInitialised(value: bool)
  {
    /** A step of thread t itself. */
    predicate By(x: Tid) {
      match this
      case Notify(_) => false
      case Shutdown => false
      case SetInitialised(_) => false
      case _ => t == x
    }

    /** A notification or a shutdown that posts a waiter of this context. */
    predicate Wakes(context: nat) {
      match this
      case Notify(event) => Matches(context, event)
      case Shutdown => true
      case _ => false
    }
  }

  /** (td->context == context) || (context == 0) */
  predicate Matches(context: nat, event: nat) {
    context == event || event == 0
  }

  /** The largest timeout, in milliseconds, for which val * 1000 is an int. */
  const MAX_TIMEOUT: int := 2147483

  /** tmout, in microseconds: a thousand for each millisecond, and half a second for a wait without end. */
  function Microseconds(timeout: int): (us: int)
    ensures -0x8000_0000 <= timeout <= 2147483 && timeout != 0 ==> 0 < us < 0x8000_0000
    ensures 0 <= timeout ==> us / 1000 == timeout && us % 1000 == 0
    ensures timeout < 0 ==> 2 * us == 1_000_000
  {
    if timeout < 0 then 500000 else timeout * 1000
  }

  // ---------------------------------------------------------------- list and semaphores

  /** list_remove, on the sequence of waiters. */
  function Without<T(==)>(s: seq<T>, x: T): (r: seq<T>)
    ensures x !in s ==> r == s
  {
    if s == [] then [] else if s[0] == x then s[1..] else [s[0]] + Without(s[1..], x)
  }

  ghost predicate Distinct<T>(s: seq<T>) {
    forall i, j :: 0 <= i < j < |s| ==> s[i] != s[j]
  }

  lemma {:induction false} WithoutRemoves<T(!new)>(s: seq<T>, x: T)
    requires Distinct(s)
    ensures Distinct(Without(s, x))
    ensures forall y :: y in Without(s, x) <==> y in s && y != x
  {
    if s == [] {
    } else {
      var rest := s[1..];
      WithoutRemoves(rest, x);
      assert s == [s[0]] + rest;
      assert s[0] !in rest;
    }
  }

  /** mdx_sem_post */
  function Post(th: Thread): (r: Thread) {
    match th
    case Prepared(c, v, sem) => Prepared(c, v, sem + 1)
    case Listed(c, v, sem) => Listed(c, v, sem + 1)
    case Awake(c, v, sem, err) => Awake(c, v, sem + 1, err)
    case _ => th
  }

  /** The walk of nrf_modem_os_event_notify or nrf_modem_os_shutdown, waiter by waiter. */
  function Walk(s: State, ring: seq<Tid>, e: Step): (r: State)
    ensures r.threads.Keys == s.threads.Keys && r.ring == s.ring && r.initialised == s.initialised
    decreases |ring|
  {
    if ring == [] then s
    else
      var t := ring[0];
      Walk(if t !in s.threads || !s.threads[t].OnList() then s.(fault := true)
           else if e.Wakes(s.threads[t].context) then s.(threads := s.threads[t := Post(s.threads[t])])
           else s,
           ring[1..], e)
  }

  /** The walk posts each matching waiter once, and nothing else; it touches only live frames. */
  lemma {:induction false} WalkPostsOnce(s: State, ring: seq<Tid>, e: Step)
    requires forall t :: t in ring ==> t in s.threads && s.threads[t].OnList()
    requires Distinct(ring)
    ensures Walk(s, ring, e).fault == s.fault
    ensures forall t :: t in s.threads ==>
              Walk(s, ring, e).threads[t]
              == if t in ring && s.threads[t].OnList() && e.Wakes(s.threads[t].context)
                 then Post(s.threads[t]) else s.threads[t]
    decreases |ring|
  {
    if ring == [] {
    } else {
      var t, rest := ring[0], ring[1..];
      assert ring == [t] + rest;
      assert t !in rest;
      var th := s.threads[t];
      WalkPostsOnce(if e.Wakes(th.context) then s.(threads := s.threads[t := Post(th)]) else s, rest, e);
    }
  }

  /** The steps that post a waiter of context c: a shutdown, and the notifications of c and of 0. */
  lemma WakesMeans(e: Step, c: nat)
    ensures e.Wakes(c) <==> e == Shutdown || e == Notify(c) || e == Notify(0)
  {
  }

  // ---------------------------------------------------------------- steps

  predicate Enabled(s: State, e: Step) {
    match e
    case Call(t, context, timeout) =>
      t in s.threads && s.threads[t].Outside? && -0x8000_0000 <= timeout <= MAX_TIMEOUT
    case Leave(t, early) =>
      && t in s.threads && s.threads[t].Entered?
      && (!s.initialised || s.threads[t].timeout == 0)
      && early == if !s.initialised then ShutDown else Again
    case Prepare(t) =>
      t in s.threads && s.threads[t].Entered? && s.initialised && s.threads[t].timeout != 0
    case Append(t) => t in s.threads && s.threads[t].Prepared?
    case Take(t) => t in s.threads && s.threads[t].Listed? && s.threads[t].sem > 0
    case Expire(t) => t in s.threads && s.threads[t].Listed? && s.threads[t].sem == 0
    case Remove(t) => t in s.threads && s.threads[t].Awake?
    case Return(t, result) =>
      && t in s.threads && s.threads[t].Unlisted?
      && result == if !s.initialised then ShutDown
                   else if s.threads[t].err || s.threads[t].timeout < 0 then Success
                   else Again
    case _ => true
  }

  function Apply(s: State, e: Step): (r: State)
    requires Enabled(s, e)
    ensures r.threads.Keys == s.threads.Keys
  {
    match e
    case Call(t, context, timeout) => s.(threads := s.threads[t := Entered(context, timeout)])
    case Leave(t, _) => s.(threads := s.threads[t := Outside])
    case Prepare(t) =>
      s.(threads := s.threads[t := Prepared(s.threads[t].context, s.threads[t].timeout, 0)])
    case Append(t) =>
      var th := s.threads[t];
      s.(ring := s.ring + [t], threads := s.threads[t := Listed(th.context, th.timeout, th.sem)])
    case Take(t) =>
      var th := s.threads[t];
      s.(threads := s.threads[t := Awake(th.context, th.timeout, th.sem - 1, true)])
    case Expire(t) =>
      var th := s.threads[t];
      s.(threads := s.threads[t := Awake(th.context, th.timeout, th.sem, false)])
    case Remove(t) =>
      var th := s.threads[t];
      s.(ring := Without(s.ring, t), threads := s.threads[t := Unlisted(th.context, th.timeout, th.err)])
    case Return(t, _) => s.(threads := s.threads[t := Outside])
    case Notify(_) => Walk(s, s.ring, e)
    case Shutdown => Walk(s, s.ring, e)
    case SetInitialised(value) => s.(initialised := value)
  }

  // ---------------------------------------------------------------- safety of the list

  /** The timeout of a call is in range, and not zero once the thread has a waiter. */
  predicate Timed(th: Thread) {
    !th.Outside? ==> -0x8000_0000 <= th.timeout <= MAX_TIMEOUT && (!th.Entered? ==> th.timeout != 0)
  }

  /** The list holds exactly the threads between append and remove, each once, and no walk faulted. */
  ghost predicate Inv(s: State) {
    && !s.fault
    && Distinct(s.ring)
    && (forall t :: t in s.ring <==> t in s.threads && s.threads[t].OnList())
    && (forall t :: t in s.threads ==> Timed(s.threads[t]))
  }

  ghost predicate Init(s: State) {
    s.ring == [] && !s.fault && forall t :: t in s.threads ==> s.threads[t].Outside?
  }

  lemma WalkKeepsInv(s: State, e: Step)
    requires Inv(s) && (e.Notify? || e.Shutdown?)
    ensures Inv(Apply(s, e))
  {
    hide Walk;
    WalkPostsOnce(s, s.ring, e);
  }

  lemma RemoveKeepsInv(s: State, t: Tid)
    requires Inv(s) && Enabled(s, Remove(t))
    ensures Inv(Apply(s, Remove(t)))
  {
    hide Without, Distinct;
    WithoutRemoves(s.ring, t);
  }

  lemma AppendKeepsInv(s: State, t: Tid)
    requires Inv(s) && Enabled(s, Append(t))
    ensures Inv(Apply(s, Append(t)))
  {
    assert t !in s.ring;
  }

  /** Steps that leave the list alone and keep their thread on it or off it. */
  lemma PlainStepKeepsInv(s: State, e: Step)
    requires Inv(s) && Enabled(s, e)
    requires !e.Append? && !e.Remove? && !e.Notify? && !e.Shutdown?
    ensures Inv(Apply(s, e))
  {
    hide Distinct;
  }

  lemma StepKeepsInv(s: State, e: Step)
    requires Inv(s) && Enabled(s, e)
    ensures Inv(Apply(s, e))
  {
    hide Inv, Enabled, Apply;
    match e
    case Append(t) => AppendKeepsInv(s, t);
    case Remove(t) => RemoveKeepsInv(s, t);
    case Notify(_) => WalkKeepsInv(s, e);
    case Shutdown => WalkKeepsInv(s, e);
    case _ => PlainStepKeepsInv(s, e);
  }

  /** What a step of somebody else does to a thread: at most one post, and only on the list. */
  lemma StepOnOther(s: State, e: Step, t: Tid)
    requires Inv(s) && Enabled(s, e) && t in s.threads && !e.By(t)
    ensures Apply(s, e).threads[t]
            == if s.threads[t].OnList() && e.Wakes(s.threads[t].context) then Post(s.threads[t])
               else s.threads[t]
  {
    match e
    case Notify(_) => WalkPostsOnce(s, s.ring, e);
    case Shutdown => WalkPostsOnce(s, s.ring, e);
    case _ =>
  }

  /** The notification of 0 is for everybody: it does what a shutdown does. */
  lemma NotifyZeroIsShutdown(s: State)
    requires Inv(s)
    ensures Apply(s, Notify(0)) == Apply(s, Shutdown)
  {
    hide Inv, Walk;
    var a, b := Apply(s, Notify(0)), Apply(s, Shutdown);
    forall t | t in s.threads ensures a.threads[t] == b.threads[t] {
      StepOnOther(s, Notify(0), t);
      StepOnOther(s, Shutdown, t);
    }
    StepKeepsInv(s, Notify(0));
    StepKeepsInv(s, Shutdown);
    assert a.threads == b.threads;
    assert !a.fault && !b.fault by { NoFault(a); NoFault(b); }
  }

  lemma NoFault(s: State)
    requires Inv(s)
    ensures !s.fault
  {
  }

  /** Any other notification adds one to the semaphores of the waiters of its context, and to no other. */
  lemma NotifyPosts(s: State, event: nat, t: Tid)
    requires Inv(s) && event != 0 && t in s.threads && s.threads[t].OnList()
    ensures Apply(s, Notify(event)).threads[t]
            == s.threads[t].(sem := s.threads[t].sem + if s.threads[t].context == event then 1 else 0)
  {
    hide Inv, Walk;
    StepOnOther(s, Notify(event), t);
  }

  /** Conversely, one post to each matching thread on the list is the whole effect of a walk. */
  lemma PostsAreWalk(s: State, s': State, e: Step)
    requires Inv(s) && (e.Notify? || e.Shutdown?)
    requires s'.initialised == s.initialised && s'.ring == s.ring && !s'.fault
    requires s'.threads.Keys == s.threads.Keys
    requires forall t :: t in s.threads ==>
               s'.threads[t] == if s.threads[t].OnList() && e.Wakes(s.threads[t].context)
                                then Post(s.threads[t]) else s.threads[t]
    ensures s' == Apply(s, e)
  {
    forall t | t in s.threads ensures s'.threads[t] == Apply(s, e).threads[t] {
      StepOnOther(s, e, t);
    }
    WalkPostsOnce(s, s.ring, e);
    assert s'.threads == Apply(s, e).threads;
  }

  /** A run: states and the steps between them. */
  ghost predicate IsRun(states: seq<State>, steps: seq<Step>) {
    && |states| == |steps| + 1
    && Init(states[0])
    && (forall k :: 0 <= k < |steps| ==>
          Enabled(states[k], steps[k]) && states[k + 1] == Apply(states[k], steps[k]))
  }

  /**
   Over all runs: the list is exact in every state, no walk ever reaches a dead frame, and the
   timeout of a listed thread, in microseconds, is a positive int.
   */
  lemma {:induction false} ListIsSafe(states: seq<State>, steps: seq<Step>, k: nat)
    requires IsRun(states, steps) && k < |states|
    ensures Inv(states[k]) && states[k].threads.Keys == states[0].threads.Keys
    ensures forall t :: t in states[k].ring ==> 0 < Microseconds(states[k].threads[t].timeout) < 0x8000_0000
  {
    if k == 0 {
    } else {
      ListIsSafe(states, steps, k - 1);
      StepKeepsInv(states[k - 1], steps[k - 1]);
    }
  }

  /** The modem state is the one that was set last, or the one at the start. */
  lemma {:induction false} ModemState(states: seq<State>, steps: seq<Step>, k: nat)
    requires IsRun(states, steps) && k < |states|
    ensures forall m, v ::
              0 <= m < k && steps[m] == SetInitialised(v) && (forall i :: m < i < k ==> !steps[i].SetInitialised?)
              ==> states[k].initialised == v
    ensures (forall i :: 0 <= i < k ==> !steps[i].SetInitialised?) ==>
              states[k].initialised == states[0].initialised
  {
    if k == 0 {
    } else {
      ModemState(states, steps, k - 1);
      OnlySetChanges(states[k - 1], steps[k - 1]);
    }
  }

  lemma OnlySetChanges(s: State, e: Step)
    requires Enabled(s, e)
    ensures Apply(s, e).initialised == match e case SetInitialised(v) => v case _ => s.initialised
  {
  }

  // ---------------------------------------------------------------- no lost wakeup

  /** The thread has been posted in time: it can only come out of its wait with a success. */
  predicate Secured(th: Thread) {
    match th
    case Listed(_, _, sem) => sem > 0
    case Awake(_, _, _, err) => err
    case Unlisted(_, _, err) => err
    case _ => false
  }

  lemma SecuredStays(s: State, e: Step, t: Tid)
    requires Inv(s) && Enabled(s, e) && t in s.threads && Secured(s.threads[t])
    requires forall r :: e != Return(t, r)
    ensures Secured(Apply(s, e).threads[t])
  {
    if !e.By(t) {
      StepOnOther(s, e, t);
    }
  }

  lemma {:induction false} SecuredUntilReturn(states: seq<State>, steps: seq<Step>, t: Tid, k: nat, m: nat)
    requires IsRun(states, steps) && k < m < |states| && t in states[0].threads
    requires forall i :: 0 <= i < |states| ==> Inv(states[i]) && t in states[i].threads
    requires states[k].threads[t].Listed? && steps[k].Wakes(states[k].threads[t].context)
    requires forall i, r :: k <= i < m ==> steps[i] != Return(t, r)
    ensures Secured(states[m].threads[t])
  {
    if m == k + 1 {
      StepOnOther(states[k], steps[k], t);
    } else {
      SecuredUntilReturn(states, steps, t, k, m - 1);
      SecuredStays(states[m - 1], steps[m - 1], t);
    }
  }

  // ---------------------------------------------------------------- the exact result

  /** How many of the steps from lo up to hi wake a waiter of this context. */
  ghost function Wakeups(steps: seq<Step>, context: nat, lo: nat, hi: nat): (n: nat)
    requires lo <= hi <= |steps|
    decreases hi
  {
    if lo == hi then 0
    else Wakeups(steps, context, lo, hi - 1) + if steps[hi - 1].Wakes(context) then 1 else 0
  }

  lemma {:induction false} WakeupsPositive(steps: seq<Step>, context: nat, lo: nat, hi: nat)
    requires lo <= hi <= |steps|
    ensures Wakeups(steps, context, lo, hi) > 0
            <==> exists k :: lo <= k < hi && steps[k].Wakes(context)
    decreases hi
  {
    if lo < hi {
      WakeupsPositive(steps, context, lo, hi - 1);
    }
  }

  /** Thread t called with context c and timeout v at b, and has only made its waiter ready since. */
  ghost predicate Called(steps: seq<Step>, t: Tid, b: nat, k: nat, c: nat, v: int)
    requires k <= |steps|
  {
    && b < k && steps[b] == Call(t, c, v)
    && (forall m :: b < m < k && steps[m].By(t) ==> steps[m] == Prepare(t))
  }

  /**
   The part of a wait up to the end of mdx_sem_timedwait: called at b with context c and timeout v,
   appended at a, not ended before w.
   */
  ghost predicate Waiting(steps: seq<Step>, t: Tid, b: nat, a: nat, w: nat, c: nat, v: int) {
    && a < w <= |steps|
    && Called(steps, t, b, a, c, v)
    && steps[a] == Append(t)
    && (forall k :: a < k < w ==> !steps[k].By(t))
  }

  /** The part after it: ended at w, the only step of the thread since then is Remove. */
  ghost predicate Ended(steps: seq<Step>, t: Tid, w: nat, k: nat)
    requires k <= |steps|
  {
    && w < k
    && (steps[w] == Take(t) || steps[w] == Expire(t))
    && (forall m :: w < m < k && steps[m].By(t) ==> steps[m] == Remove(t))
  }

  /** The state of thread t before step k, explained by the steps b, a and w of its current call. */
  ghost predicate Explained(th: Thread, steps: seq<Step>, t: Tid, k: nat, b: nat, a: nat, w: nat)
    requires k <= |steps|
  {
    match th
    case Outside => true
    case Entered(c, v) => Called(steps, t, b, k, c, v)
    case Prepared(c, v, sem) => Called(steps, t, b, k, c, v) && sem == 0
    case Listed(c, v, sem) =>
      Waiting(steps, t, b, a, k, c, v) && sem == Wakeups(steps, c, a + 1, k)
    case Awake(c, v, _, err) =>
      && Waiting(steps, t, b, a, w, c, v) && Ended(steps, t, w, k)
      && (err <==> Wakeups(steps, c, a + 1, w) > 0) && (err <==> steps[w] == Take(t))
    case Unlisted(c, v, err) =>
      && Waiting(steps, t, b, a, w, c, v) && Ended(steps, t, w, k)
      && (err <==> Wakeups(steps, c, a + 1, w) > 0) && (err <==> steps[w] == Take(t))
  }

  lemma ExplainOwnStep(s: State, steps: seq<Step>, t: Tid, k: nat, b: nat, a: nat, w: nat)
    returns (b': nat, a': nat, w': nat)
    requires k < |steps| && t in s.threads && steps[k].By(t) && Enabled(s, steps[k])
    requires Explained(s.threads[t], steps, t, k, b, a, w)
    ensures Explained(Apply(s, steps[k]).threads[t], steps, t, k + 1, b', a', w')
  {
    b', a', w' := b, a, w;
    match steps[k]
    case Call(_, _, _) => b' := k;
    case Append(_) => a' := k;
    case Take(_) => w' := k;
    case Expire(_) => w' := k;
    case _ =>
  }

  lemma ExplainOtherStep(s: State, steps: seq<Step>, t: Tid, k: nat, b: nat, a: nat, w: nat)
    requires k < |steps| && t in s.threads && !steps[k].By(t) && Inv(s) && Enabled(s, steps[k])
    requires Explained(s.threads[t], steps, t, k, b, a, w)
    ensures Explained(Apply(s, steps[k]).threads[t], steps, t, k + 1, b, a, w)
  {
    hide Inv, Enabled, Apply;
    StepOnOther(s, steps[k], t);
  }

  lemma {:induction false} ExplainState(states: seq<State>, steps: seq<Step>, t: Tid, k: nat)
    returns (b: nat, a: nat, w: nat)
    requires IsRun(states, steps) && k < |states| && t in states[0].threads
    ensures t in states[k].threads && Explained(states[k].threads[t], steps, t, k, b, a, w)
    decreases k
  {
    hide Enabled, Apply, Inv;
    ListIsSafe(states, steps, k);
    if k == 0 {
      b, a, w := 0, 0, 0;
    } else {
      hide Explained;
      b, a, w := ExplainState(states, steps, t, k - 1);
      ListIsSafe(states, steps, k - 1);
      if steps[k - 1].By(t) {
        b, a, w := ExplainOwnStep(states[k - 1], steps, t, k - 1, b, a, w);
      } else {
        ExplainOtherStep(states[k - 1], steps, t, k - 1, b, a, w);
      }
    }
  }

  /** Some step strictly between a and w is a shutdown, or a notification of c or of 0. */
  ghost predicate Woken(steps: seq<Step>, c: nat, a: nat, w: nat)
    requires w <= |steps|
  {
    exists k :: a < k < w && (steps[k] == Shutdown || steps[k] == Notify(c) || steps[k] == Notify(0))
  }

  lemma WakeupsAreWoken(steps: seq<Step>, c: nat, a: nat, w: nat)
    requires a < w <= |steps|
    ensures Wakeups(steps, c, a + 1, w) > 0 <==> Woken(steps, c, a, w)
  {
    WakeupsPositive(steps, c, a + 1, w);
    forall k | a < k < w
      ensures steps[k].Wakes(c) <==> steps[k] == Shutdown || steps[k] == Notify(c) || steps[k] == Notify(0)
    {
      WakesMeans(steps[k], c);
    }
  }

  /**
   The return of t at step e closes the call made at b with context c and timeout v, which was
   appended at a and whose semaphore wait ended at w, and its result is the one that this call
   must have.
   */
  ghost predicate Decides(states: seq<State>, steps: seq<Step>, t: Tid, e: nat, result: Result,
                          b: nat, a: nat, w: nat, c: nat, v: int)
    requires |states| == |steps| + 1 && e < |steps|
  {
    && Waiting(steps, t, b, a, w, c, v) && w < e && Ended(steps, t, w, e)
    && (steps[w] == Take(t) <==> Woken(steps, c, a, w))
    && (result == if !states[e].initialised then ShutDown
                  else if v < 0 || Woken(steps, c, a, w) then Success
                  else Again)
    && (result == Again ==> steps[w] == Expire(t))
  }

  /**
   The exact result of a wait. Every return in every run belongs to a call made at some step b,
   appended at some step a, and whose semaphore wait ended at some step w. It is -NRF_ESHUTDOWN if
   the modem is not initialised at the return; otherwise, for a positive timeout, it is 0 if a
   shutdown or a notification of 0 or of the context of the call came between a and w, and
   -NRF_EAGAIN, after a timeout, if none did. A negative timeout gives 0 in both cases.
   */
  lemma ResultIsExact(states: seq<State>, steps: seq<Step>, t: Tid, e: nat, result: Result)
    returns (b: nat, a: nat, w: nat, c: nat, v: int)
    requires IsRun(states, steps) && e < |steps| && t in states[0].threads
    requires steps[e] == Return(t, result)
    ensures Decides(states, steps, t, e, result, b, a, w, c, v)
  {
    hide Woken;
    b, a, w := ExplainState(states, steps, t, e);
    c, v := states[e].threads[t].context, states[e].threads[t].timeout;
    WakeupsAreWoken(steps, c, a, w);
  }

  /** A call that ends before it sleeps ends at once, and for one of two reasons. */
  lemma EarlyResultIsExact(states: seq<State>, steps: seq<Step>, t: Tid, e: nat, early: Result)
    returns (b: nat, c: nat, v: int)
    requires IsRun(states, steps) && e < |steps| && t in states[0].threads
    requires steps[e] == Leave(t, early)
    ensures b < e && steps[b] == Call(t, c, v) && forall k :: b < k < e ==> steps[k] != Append(t)
    ensures if !states[e].initialised then early == ShutDown else v == 0 && early == Again
  {
    var a, w;
    b, a, w := ExplainState(states, steps, t, e);
    c, v := states[e].threads[t].context, states[e].threads[t].timeout;
  }

  /**
   No lost wakeup: a shutdown, or a notification of 0 or of the context that the thread called
   with, that lands while the waiter is on the list and its timeout has not fired, blocked or not
   yet, decides that wait. The next return of the thread is not -NRF_EAGAIN, and it is 0 if the
   modem is still initialised then.
   */
  lemma NoLostWakeup(states: seq<State>, steps: seq<Step>, t: Tid, b: nat, c: nat, v: int,
                     k: nat, e: nat, result: Result)
    requires IsRun(states, steps) && b < k < e < |steps| && t in states[0].threads
    requires steps[b] == Call(t, c, v) && forall i :: b < i < k && steps[i].Call? ==> steps[i].t != t
    requires t in states[k].threads && states[k].threads[t].Listed?
    requires steps[k] == Shutdown || steps[k] == Notify(c) || steps[k] == Notify(0)
    requires steps[e] == Return(t, result) && forall i, r :: k <= i < e ==> steps[i] != Return(t, r)
    ensures result == if states[e].initialised then Success else ShutDown
  {
    hide Inv, Apply;
    forall i | 0 <= i < |states| ensures Inv(states[i]) && t in states[i].threads {
      ListIsSafe(states, steps, i);
    }
    var b', a, w := ExplainState(states, steps, t, k);
    var c' := states[k].threads[t].context;
    assert b' == b && c' == c by {
      assert steps[b'] == Call(t, c', states[k].threads[t].timeout);
      assert !(b' < b < a) && !(a < b < k) && b != a;
    }
    WakesMeans(steps[k], c);
    SecuredUntilReturn(states, steps, t, k, e);
  }

  // ---------------------------------------------------------------- progress

  /** The next step of a thread inside a call. */
  function NextStep(s: State, t: Tid): (e: Step)
    requires t in s.threads && !s.threads[t].Outside?
    ensures e.By(t)
  {
    match s.threads[t]
    case Entered(_, v) =>
      if !s.initialised then Leave(t, ShutDown) else if v == 0 then Leave(t, Again) else Prepare(t)
    case Prepared(_, _, _) => Append(t)
    case Listed(_, _, sem) => if sem > 0 then Take(t) else Expire(t)
    case Awake(_, _, _, _) => Remove(t)
    case Unlisted(_, v, err) =>
      Return(t, if !s.initialised then ShutDown else if err || v < 0 then Success else Again)
  }

  /** Steps that a thread still needs before it is out of the call. */
  function Remaining(th: Thread): (n: nat) {
    match th
    case Outside => 0
    case Entered(_, _) => 5
    case Prepared(_, _, _) => 4
    case Listed(_, _, _) => 3
    case Awake(_, _, _, _) => 2
    case Unlisted(_, _, _) => 1
  }

  /**
   No call can be blocked for good: in every reachable state a thread inside a call has exactly
   one step of its own enabled, each brings it closer to the end, and no step of anybody else
   takes it back.
   */
  lemma CallsProgress(s: State, t: Tid, e: Step)
    requires Inv(s) && t in s.threads && !s.threads[t].Outside?
    ensures Enabled(s, NextStep(s, t))
    ensures Enabled(s, e) && e.By(t) ==> e == NextStep(s, t)
    ensures Remaining(Apply(s, NextStep(s, t)).threads[t]) < Remaining(s.threads[t])
    ensures Enabled(s, e) && !e.By(t) ==> Remaining(Apply(s, e).threads[t]) == Remaining(s.threads[t])
  {
    if Enabled(s, e) && !e.By(t) {
      StepOnOther(s, e, t);
    }
  }
}
