/**
 The sleep/notify protocol executed on the heap: the stack frames of the sleeping threads, the
 linked list through them and the semaphores in them. Every atomic action of src/nrf_modem.c
 takes the heap from one state of the step machine to the next, so what is proved of all runs
 of the machine holds of the linked list.
 */
module ModemOs {
  import opened SleepNotify
  import opened WaiterRing

  datatype Option<T> = None | Some(value: T)

  /** The thread has a struct sleeping_thread on its stack. */
  predicate HasFrame(th: Thread) {
    th.Prepared? || th.Listed? || th.Awake?
  }

  /** The thread, with the count of the semaphore in its frame. */
  function WithSem(th: Thread, sem: nat): (r: Thread)
    requires HasFrame(th)
  {
    th.(sem := sem)
  }

  class Modem {
    const list: Ring
    var initialised: bool
    /** Where each thread is; semaphore counts live in the frames, not here. */
    var pc: map<Tid, Thread>
    /** The variable td of each thread that has one. */
    var frame: map<Tid, Entry>
    /** The threads whose frames are on the list, in list order. */
    ghost var order: seq<Tid>
    /** The states the machine has been in, and the steps between them. */
    ghost var states: seq<State>
    ghost var steps: seq<Step>

    ghost predicate FramesMatch()
      reads this
    {
      forall t :: t in frame <==> t in pc && HasFrame(pc[t])
    }

    /** The state of the step machine that the heap stands for. */
    ghost function Abs(): (s: State)
      requires FramesMatch()
      reads this, frame.Values
    {
      State(initialised, order,
            map t | t in pc :: if t in frame then WithSem(pc[t], frame[t].sem) else pc[t],
            false)
    }

    /** List, frames and order fit together. */
    ghost predicate Shape()
      reads this, list, list.head, list.waiters, frame.Values
    {
      && list.Valid()
      && FramesMatch()
      && (forall t :: t in frame ==> frame[t] != list.head && frame[t].context == pc[t].context)
      && (forall t, u :: t in frame && u in frame && frame[t] == frame[u] ==> t == u)
      && |order| == |list.waiters|
      && (forall i :: 0 <= i < |order| ==> order[i] in frame && frame[order[i]] == list.waiters[i])
    }

    /** The heap stands for the last state of a run of the machine. */
    ghost predicate Valid()
      reads this, list, list.head, list.waiters, frame.Values
    {
      Shape() && IsRun(states, steps) && states[|steps|] == Abs()
    }

    /** What every run keeps holds of the heap. */
    lemma InvNow()
      requires Valid()
      ensures Inv(Abs()) && Abs().threads.Keys == states[0].threads.Keys
    {
      ListIsSafe(states, steps, |steps|);
    }

    /** Adds a step to the history. */
    ghost method Record(e: Step)
      requires Shape() && IsRun(states, steps)
      requires Enabled(states[|steps|], e) && Abs() == Apply(states[|steps|], e)
      modifies this`states, this`steps
      ensures Valid() && Abs() == old(Abs())
      ensures steps == old(steps) + [e] && states == old(states) + [Abs()]
    {
      hide Enabled, Apply, Init;
      states := states + [Abs()];
      steps := steps + [e];
    }

    lemma OrderIsList(t: Tid)
      requires Shape() && t in frame
      ensures t in order <==> frame[t] in list.waiters
    {
      if frame[t] in list.waiters {
        var i :| 0 <= i < |list.waiters| && list.waiters[i] == frame[t];
        assert order[i] == t;
      }
    }

    /** The place of a listed thread; its frame is there and nowhere else. */
    lemma OnListAt(t: Tid) returns (k: nat)
      requires Shape() && t in order
      ensures k < |order| && order[k] == t && list.waiters[k] == frame[t]
      ensures t !in order[..k] + order[k + 1..]
      ensures Without(order, t) == order[..k] + order[k + 1..]
      ensures list.waiters[k] !in list.waiters[..k]
    {
      k :| 0 <= k < |order| && order[k] == t;
      forall i | 0 <= i < |order| && i != k ensures order[i] != t {
        assert list.waiters[i] != list.waiters[k];
      }
      WithoutIsSplice(order, k);
    }

    /** nrf_modem_os_init, with any set of threads, none of them in a call */
    constructor (threads: set<Tid>, initialised: bool)
      ensures Valid() && fresh(list) && fresh(list.head)
      ensures steps == [] && Abs().threads.Keys == threads && Abs().initialised == initialised
    {
      list := new Ring();
      this.initialised := initialised;
      pc := map t | t in threads :: Outside;
      frame := map[];
      order := [];
      steps := [];
      states := [State(initialised, [], map t | t in threads :: Outside, false)];
    }

    /** Moves a thread between two points at which it has no frame. */
    method Move(t: Tid, th: Thread)
      requires Shape() && t in pc && !HasFrame(pc[t]) && !HasFrame(th)
      modifies this`pc
      ensures Shape() && Abs() == old(Abs()).(threads := old(Abs()).threads[t := th])
    {
      pc := pc[t := th];
      assert Abs().threads == old(Abs()).threads[t := th];
    }

    /** A thread calls nrf_modem_os_timedwait. */
    method Call(t: Tid, context: nat, timeout: int)
      requires Valid() && t in pc && pc[t].Outside? && -0x8000_0000 <= timeout <= MAX_TIMEOUT
      modifies this`pc, this`states, this`steps
      ensures Valid() && Abs() == Apply(old(Abs()), Step.Call(t, context, timeout))
      ensures steps == old(steps) + [Step.Call(t, context, timeout)] && states == old(states) + [Abs()]
      ensures Abs().threads == old(Abs()).threads[t := Entered(context, timeout)]
      ensures initialised == old(initialised) && Abs().ring == old(Abs()).ring
    {
      Move(t, Entered(context, timeout));
      Record(Step.Call(t, context, timeout));
    }

    /** The modem is initialised, or is no longer. */
    method SetInitialised(value: bool)
      requires Valid()
      modifies this`initialised, this`states, this`steps
      ensures Valid() && Abs() == Apply(old(Abs()), Step.SetInitialised(value))
      ensures steps == old(steps) + [Step.SetInitialised(value)] && states == old(states) + [Abs()]
      ensures Abs() == old(Abs()).(initialised := value)
    {
      initialised := value;
      Record(Step.SetInitialised(value));
    }

    /**
     The tests at the start of the routine: an early result, or a fresh frame with its semaphore
     set to 0.
     */
    method Begin(t: Tid) returns (early: Option<Result>)
      requires Valid() && t in pc && pc[t].Entered?
      modifies this`pc, this`frame, this`states, this`steps
      ensures early == if !old(initialised) then Some(ShutDown)
                       else if old(pc[t].timeout) == 0 then Some(Again)
                       else None
      ensures var e := if early.Some? then Leave(t, early.value) else Prepare(t);
              && Valid() && Abs() == Apply(old(Abs()), e)
              && steps == old(steps) + [e] && states == old(states) + [Abs()]
    {
      if !initialised {
        Move(t, Outside);
        Record(Leave(t, ShutDown));
        return Some(ShutDown);
      }
      if pc[t].timeout == 0 {
        Move(t, Outside);
        Record(Leave(t, Again));
        return Some(Again);
      }
      Enframe(t);
      Record(Prepare(t));
      return None;
    }

    /**
     The tests at the end of the routine. The result that it computes is the one that the history
     of notifications, shutdowns and timeouts demands.
     */
    method Finish(t: Tid) returns (result: Result)
      requires Valid() && t in pc && pc[t].Unlisted?
      modifies this`pc, this`states, this`steps
      ensures result == if !old(initialised) then ShutDown
                        else if old(pc[t].err || pc[t].timeout < 0) then Success
                        else Again
      ensures Valid() && Abs() == Apply(old(Abs()), Return(t, result))
      ensures steps == old(steps) + [Return(t, result)] && states == old(states) + [Abs()]
      ensures exists b, a, w, c, v :: Decides(states, steps, t, |old(steps)|, result, b, a, w, c, v)
    {
      InvNow();
      ghost var e := |steps|;
      if !initialised {
        result := ShutDown;
      } else if !pc[t].err {
        if pc[t].timeout < 0 {
          result := Success;
        } else {
          result := Again;
        }
      } else {
        result := Success;
      }
      Move(t, Outside);
      Record(Return(t, result));
      ghost var b, a, w, c, v := ResultIsExact(states, steps, t, e, result);
    }

    /** Gives t a fresh frame. */
    method Enframe(t: Tid)
      requires Shape() && t in pc && pc[t].Entered?
      modifies this`frame, this`pc
      ensures Shape()
      ensures var s, th := old(Abs()), old(pc[t]);
              Abs() == s.(threads := s.threads[t := Prepared(th.context, th.timeout, 0)])
    {
      var td := new Entry(pc[t].context);
      frame := frame[t := td];
      pc := pc[t := Prepared(pc[t].context, pc[t].timeout, 0)];
      assert Abs().threads == old(Abs()).threads[t := pc[t]];
    }

    /** Puts the frame of t at the end of the list. */
    method Enlist(t: Tid)
      requires Shape() && t in pc && pc[t].Prepared? && t !in order
      modifies this`order, this`pc, list, list.head, list.waiters, frame.Values
      ensures Shape()
      ensures var s := old(Abs());
              var th := s.threads[t];
              Abs() == s.(ring := s.ring + [t],
                          threads := s.threads[t := Listed(th.context, th.timeout, th.sem)])
    {
      OrderIsList(t);
      list.Append(frame[t]);
      order := order + [t];
      pc := pc[t := Listed(pc[t].context, pc[t].timeout, 0)];
      assert Abs().threads == old(Abs()).threads[t := Abs().threads[t]];
    }

    /** The critical section around list_append. */
    method Append(t: Tid)
      requires Valid() && t in pc && pc[t].Prepared?
      modifies this`order, this`pc, this`states, this`steps, list, list.head, list.waiters, frame.Values
      ensures Valid() && Abs() == Apply(old(Abs()), Step.Append(t))
      ensures steps == old(steps) + [Step.Append(t)] && states == old(states) + [Abs()]
    {
      InvNow();
      Enlist(t);
      Record(Step.Append(t));
    }

    /** mdx_sem_timedwait comes back with the given count left in the semaphore. */
    method Wake(t: Tid, left: nat, err: bool)
      requires Shape() && t in pc && pc[t].Listed?
      modifies this`pc, frame.Values
      ensures Shape()
      ensures var s, th := old(Abs()), old(pc[t]);
              Abs() == s.(threads := s.threads[t := Awake(th.context, th.timeout, left, err)])
    {
      frame[t].sem := left;
      pc := pc[t := Awake(pc[t].context, pc[t].timeout, 0, err)];
      assert list.Valid() by { list.StillValid(); }
      assert Abs().threads == old(Abs()).threads[t := Abs().threads[t]];
    }

    /** The end of mdx_sem_timedwait: a post is taken, or the timeout fires. */
    method EndWait(t: Tid) returns (err: bool)
      requires Valid() && t in pc && pc[t].Listed?
      modifies this`pc, this`states, this`steps, frame.Values
      ensures err <==> old(Abs().threads[t].sem > 0)
      ensures var e := if err then Take(t) else Expire(t);
              && Valid() && Abs() == Apply(old(Abs()), e)
              && steps == old(steps) + [e] && states == old(states) + [Abs()]
      ensures var th := old(Abs().threads[t]);
              Abs().threads[t] == Awake(th.context, th.timeout, if err then th.sem - 1 else 0, err)
    {
      var sem := frame[t].sem;
      err := sem > 0;
      Wake(t, if err then sem - 1 else sem, err);
      Record(if err then Take(t) else Expire(t));
    }

    /** Takes the frame of t off the list. */
    method Unlist(t: Tid)
      requires Shape() && t in order
      modifies this`order, list, list.head, list.waiters
      ensures Shape() && t !in order && Abs() == old(Abs()).(ring := Without(old(order), t))
    {
      ghost var k := OnListAt(t);
      ghost var ws := list.waiters;
      list.Remove(frame[t]);
      assert list.waiters == ws[..k] + ws[k + 1..] by { WithoutIsSplice(ws, k); }
      order := order[..k] + order[k + 1..];
      assert Abs().threads == old(Abs()).threads;
    }

    /** Ends the life of the frame of t. */
    method Unframe(t: Tid)
      requires Shape() && t in pc && pc[t].Awake? && t !in order
      modifies this`frame, this`pc
      ensures Shape()
      ensures var s, th := old(Abs()), old(pc[t]);
              Abs() == s.(threads := s.threads[t := Unlisted(th.context, th.timeout, th.err)])
    {
      frame := frame - {t};
      pc := pc[t := Unlisted(pc[t].context, pc[t].timeout, pc[t].err)];
      assert Abs().threads == old(Abs()).threads[t := pc[t]];
    }

    /** The critical section around list_remove; the frame is not used after it. */
    method Remove(t: Tid)
      requires Valid() && t in pc && pc[t].Awake?
      modifies this`order, this`frame, this`pc, this`states, this`steps, list, list.head, list.waiters
      ensures Valid() && Abs() == Apply(old(Abs()), Step.Remove(t))
      ensures steps == old(steps) + [Step.Remove(t)] && states == old(states) + [Abs()]
    {
      InvNow();
      Unlist(t);
      Unframe(t);
      Record(Step.Remove(t));
    }

    /** nrf_modem_os_event_notify refines the walk of the machine. */
    method Notify(event: nat)
      requires Valid()
      modifies this`states, this`steps, list.waiters
      ensures Valid() && Abs() == Apply(old(Abs()), Step.Notify(event))
      ensures steps == old(steps) + [Step.Notify(event)] && states == old(states) + [Abs()]
      ensures pc == old(pc) && frame == old(frame) && order == old(order)
      ensures forall t :: t in frame ==>
                frame[t].sem == old(frame[t].sem) +
                if t in order && (pc[t].context == event || event == 0) then 1 else 0
    {
      InvNow();
      ghost var visited := list.EventNotify(event);
      assert Shape();
      forall t | t in frame ensures t in order <==> frame[t] in list.waiters {
        OrderIsList(t);
      }
      Posted(Step.Notify(event));
      Record(Step.Notify(event));
    }

    /** nrf_modem_os_shutdown refines the walk of the machine. */
    method Shutdown()
      requires Valid()
      modifies this`states, this`steps, list.waiters
      ensures Valid() && Abs() == Apply(old(Abs()), Step.Shutdown)
      ensures steps == old(steps) + [Step.Shutdown] && states == old(states) + [Abs()]
      ensures pc == old(pc) && frame == old(frame) && order == old(order)
      ensures forall t :: t in frame ==> frame[t].sem == old(frame[t].sem) + if t in order then 1 else 0
    {
      InvNow();
      ghost var visited := list.Shutdown();
      assert Shape();
      forall t | t in frame ensures t in order <==> frame[t] in list.waiters {
        OrderIsList(t);
      }
      Posted(Step.Shutdown);
      Record(Step.Shutdown);
    }

    /** If exactly the matching semaphores on the list went up by one, the machine made step e. */
    twostate lemma Posted(e: Step)
      requires old(Shape()) && old(Inv(Abs())) && Shape() && (e.Notify? || e.Shutdown?)
      requires list.waiters == old(list.waiters)
      requires initialised == old(initialised) && pc == old(pc) && frame == old(frame) && order == old(order)
      requires forall t :: t in frame ==>
                 frame[t].sem == old(frame[t].sem) +
                 if frame[t] in list.waiters && e.Wakes(pc[t].context) then 1 else 0
      ensures Abs() == Apply(old(Abs()), e)
    {
      var s, s' := old(Abs()), Abs();
      forall t | t in s.threads
        ensures s'.threads[t] == if s.threads[t].OnList() && e.Wakes(s.threads[t].context)
                                 then Post(s.threads[t]) else s.threads[t]
      {
        if t in frame {
          OrderIsList(t);
        }
      }
      PostsAreWalk(s, s', e);
    }
  }
}
