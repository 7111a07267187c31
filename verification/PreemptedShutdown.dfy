/**
 nrf_modem_os_shutdown of src/nrf_modem.c walks the list in thread context and takes no critical
 section, so threads may enter and leave the list between any two of its accesses. Here the walk
 goes access by access: it tests the list or a link for the end, reads the same link again to
 come to a waiter, and posts the semaphore. The other steps are those of SleepNotify.
 */
module PreemptedShutdown {
  import opened SleepNotify

  /** The variable td of one call: the thread, and how often it has been on the list. */
  datatype Frame = Frame(t: Tid, generation: nat)

  /**
   Where the walk stands: not in the list, between the two reads of td_first, at a waiter whose
   semaphore is posted or not, or at a waiter between the two reads of td_next.
   */
  datatype Cursor = Off | FromHead | At(frame: Frame, posted: bool) | Checked(frame: Frame)
  {
    predicate OnNode() {
      At? || Checked?
    }

    /** The walk has posted the waiter that it is at. */
    predicate Done() {
      Checked? || (At? && posted)
    }
  }

  /**
   hits are the frames this walk has posted; dead is set once it touches a frame off the list, and
   stray once it takes the list head for a waiter. Either ends the walk here.
   */
  datatype World = World(s: State, generation: map<Tid, nat>, cursor: Cursor, hits: set<Frame>,
                         dead: bool, stray: bool)

  /** The walk: the two reads of td_first, the post, and the two reads of td_next. */
  datatype Act =
    | Do(e: Step)
    | IsEmpty
    | FetchFirst
    | PostHere
    | Check
    | Fetch
  {
    /** The walk comes to a node. */
    predicate Arrives() {
      FetchFirst? || Fetch?
    }

    /** The walk decides whether there is a node to come to. */
    predicate Tests() {
      IsEmpty? || Check?
    }

    /** The walk uses the node that it is at. */
    predicate Touches() {
      PostHere? || Check? || Fetch?
    }
  }

  /** The frame that a thread has, or last had, on the list. */
  function FrameOf(w: World, t: Tid): (f: Frame)
    requires t in w.generation
  {
    Frame(t, w.generation[t])
  }

  predicate Alive(w: World, f: Frame) {
    && f.t in w.s.threads && w.s.threads[f.t].OnList()
    && f.t in w.generation && w.generation[f.t] == f.generation
  }

  predicate CanAct(w: World, a: Act) {
    match a
    case Do(e) => !e.Shutdown? && Enabled(w.s, e) && (e.Append? ==> e.t in w.generation)
    case IsEmpty => w.cursor.Off?
    case FetchFirst => w.cursor.FromHead? && (w.s.ring != [] ==> w.s.ring[0] in w.generation)
    case PostHere => w.cursor.At? && !w.cursor.posted
    case Check => w.cursor.At? && w.cursor.posted
    case Fetch => w.cursor.Checked? && forall t :: t in w.s.ring ==> t in w.generation
  }

  /** What follows t on the list. */
  function Rest(ring: seq<Tid>, t: Tid): (r: seq<Tid>)
    ensures forall u :: u in r ==> u in ring
  {
    if ring == [] then [] else if ring[0] == t then ring[1..] else Rest(ring[1..], t)
  }

  function Perform(w: World, a: Act): (r: World)
    requires CanAct(w, a)
  {
    match a
    case Do(e) =>
      w.(s := Apply(w.s, e),
         generation := if e.Append? then w.generation[e.t := w.generation[e.t] + 1] else w.generation)
    case IsEmpty => w.(hits := {}, cursor := if w.s.ring == [] then Off else FromHead)
    case FetchFirst =>
      if w.s.ring == [] then w.(stray := true, cursor := Off)
      else w.(cursor := At(FrameOf(w, w.s.ring[0]), false))
    case PostHere =>
      var f := w.cursor.frame;
      if !Alive(w, f) then w.(dead := true, cursor := Off)
      else w.(s := w.s.(threads := w.s.threads[f.t := Post(w.s.threads[f.t])]),
              hits := w.hits + {f}, cursor := At(f, true))
    case Check =>
      var f := w.cursor.frame;
      if !Alive(w, f) then w.(dead := true, cursor := Off)
      else w.(cursor := if Rest(w.s.ring, f.t) == [] then Off else Checked(f))
    case Fetch =>
      var f := w.cursor.frame;
      var rest := Rest(w.s.ring, f.t);
      if !Alive(w, f) then w.(dead := true, cursor := Off)
      else if rest == [] then w.(stray := true, cursor := Off)
      else w.(cursor := At(FrameOf(w, rest[0]), false))
  }

  ghost predicate WorldInv(w: World) {
    && Inv(w.s)
    && w.generation.Keys == w.s.threads.Keys
    && (forall f :: f in w.hits ==> f.t in w.generation && f.generation <= w.generation[f.t])
    && (w.cursor.OnNode() ==> var f := w.cursor.frame;
                              f.t in w.generation && f.generation <= w.generation[f.t])
  }

  ghost predicate Start(w: World) {
    && Init(w.s) && w.generation.Keys == w.s.threads.Keys
    && w.cursor.Off? && w.hits == {} && !w.dead && !w.stray
  }

  ghost predicate IsWalkRun(ws: seq<World>, acts: seq<Act>) {
    && |ws| == |acts| + 1
    && Start(ws[0])
    && (forall k :: 0 <= k < |acts| ==> CanAct(ws[k], acts[k]) && ws[k + 1] == Perform(ws[k], acts[k]))
  }

  lemma DoKeepsInv(w: World, e: Step)
    requires WorldInv(w) && CanAct(w, Do(e))
    ensures WorldInv(Perform(w, Do(e)))
  {
    hide Inv;
    StepKeepsInv(w.s, e);
  }

  lemma PostHereKeepsInv(w: World)
    requires WorldInv(w) && CanAct(w, PostHere)
    ensures WorldInv(Perform(w, PostHere))
  {
    hide Inv;
    var f := w.cursor.frame;
    if Alive(w, f) {
      PostKeepsInv(w.s, f.t);
    }
  }

  lemma PostKeepsInv(s: State, t: Tid)
    requires Inv(s) && t in s.threads && s.threads[t].OnList()
    ensures Inv(s.(threads := s.threads[t := Post(s.threads[t])]))
  {
    hide Distinct;
  }

  lemma ActKeepsInv(w: World, a: Act)
    requires WorldInv(w) && CanAct(w, a)
    ensures WorldInv(Perform(w, a))
  {
    match a
    case Do(e) => DoKeepsInv(w, e);
    case PostHere => PostHereKeepsInv(w);
    case _ =>
  }

  lemma {:induction false} WorldIsSafe(ws: seq<World>, acts: seq<Act>, k: nat)
    requires IsWalkRun(ws, acts) && k < |ws|
    ensures WorldInv(ws[k])
  {
    hide CanAct, Perform, WorldInv;
    if k == 0 {
      StartIsSafe(ws[0]);
    } else {
      WorldIsSafe(ws, acts, k - 1);
      ActKeepsInv(ws[k - 1], acts[k - 1]);
    }
  }

  lemma StartIsSafe(w: World)
    requires Start(w)
    ensures WorldInv(w)
  {
  }

  // ---------------------------------------------------------------- dead frames

  /** A frame leaves the list only by the remove of its own thread, and never comes back. */
  lemma LifeOfFrame(w: World, a: Act, f: Frame)
    requires WorldInv(w) && CanAct(w, a) && f.t in w.generation && f.generation <= w.generation[f.t]
    ensures f.t in Perform(w, a).generation && f.generation <= Perform(w, a).generation[f.t]
    ensures Alive(Perform(w, a), f) <==> Alive(w, f) && a != Do(Remove(f.t))
  {
    hide Inv;
    if a.Do? {
      LifeInStep(w, a.e, f);
    }
  }

  lemma LifeInStep(w: World, e: Step, f: Frame)
    requires WorldInv(w) && CanAct(w, Do(e)) && f.t in w.generation && f.generation <= w.generation[f.t]
    ensures f.t in Perform(w, Do(e)).generation && f.generation <= Perform(w, Do(e)).generation[f.t]
    ensures Alive(Perform(w, Do(e)), f) <==> Alive(w, f) && e != Remove(f.t)
  {
    hide Inv;
    if !e.By(f.t) {
      StepOnOther(w.s, e, f.t);
    }
  }

  /** The node that the walk is at was reached at m, and nothing else was reached since. */
  ghost predicate ReachedAt(ws: seq<World>, acts: seq<Act>, m: nat, k: nat)
    requires |ws| == |acts| + 1 && k < |ws|
  {
    && m < k && acts[m].Arrives()
    && (forall i :: m < i < k ==> !acts[i].Arrives())
  }

  ghost predicate RemovedBetween(acts: seq<Act>, t: Tid, m: nat, k: nat)
    requires k <= |acts|
  {
    exists i :: m < i < k && acts[i] == Do(Remove(t))
  }

  /** On arrival the frame is on the list. */
  lemma ArrivesAlive(w: World, a: Act)
    requires WorldInv(w) && CanAct(w, a) && a.Arrives()
    ensures var r := Perform(w, a); r.cursor.OnNode() ==> Alive(r, r.cursor.frame) && !r.cursor.Done()
  {
    if a.Fetch? && Alive(w, w.cursor.frame) {
      var rest := Rest(w.s.ring, w.cursor.frame.t);
      assert rest != [] ==> rest[0] in w.s.ring;
    }
  }

  /** Until the walk moves on, its frame is on the list exactly as long as it is not removed. */
  lemma {:induction false} AliveUnlessRemoved(ws: seq<World>, acts: seq<Act>, m: nat, k: nat)
    requires IsWalkRun(ws, acts) && k < |ws| && ReachedAt(ws, acts, m, k) && ws[k].cursor.OnNode()
    ensures Alive(ws[k], ws[k].cursor.frame) <==> !RemovedBetween(acts, ws[k].cursor.frame.t, m, k)
    decreases k
  {
    hide Perform, CanAct, Alive, WorldInv;
    WorldIsSafe(ws, acts, k - 1);
    if k == m + 1 {
      ArrivesAlive(ws[m], acts[m]);
    } else {
      CursorStays(ws[k - 1], acts[k - 1]);
      AliveUnlessRemoved(ws, acts, m, k - 1);
      var f := ws[k].cursor.frame;
      CursorKnown(ws[k - 1]);
      LifeOfFrame(ws[k - 1], acts[k - 1], f);
    }
  }

  lemma CursorKnown(w: World)
    requires WorldInv(w) && w.cursor.OnNode()
    ensures var f := w.cursor.frame; f.t in w.generation && f.generation <= w.generation[f.t]
  {
  }

  /** Between arrivals the walk stays at its frame, or has been stopped by a dead one. */
  lemma CursorStays(w: World, a: Act)
    requires CanAct(w, a) && !a.Arrives() && Perform(w, a).cursor.OnNode()
    ensures w.cursor.OnNode() && w.cursor.frame == Perform(w, a).cursor.frame
  {
  }

  lemma {:induction false} WhenReached(ws: seq<World>, acts: seq<Act>, k: nat) returns (m: nat)
    requires IsWalkRun(ws, acts) && k < |ws| && ws[k].cursor.OnNode()
    ensures ReachedAt(ws, acts, m, k)
    decreases k
  {
    hide Perform, CanAct;
    if k == 0 {
      assert false;
    } else if acts[k - 1].Arrives() {
      m := k - 1;
    } else {
      CursorStays(ws[k - 1], acts[k - 1]);
      m := WhenReached(ws, acts, k - 1);
    }
  }

  /** Step k uses a waiter that its own thread has removed since the walk came to it. */
  ghost predicate Preempted(ws: seq<World>, acts: seq<Act>, k: nat)
    requires |ws| == |acts| + 1 && k < |acts|
  {
    && acts[k].Touches() && ws[k].cursor.OnNode()
    && exists m :: ReachedAt(ws, acts, m, k) && RemovedBetween(acts, ws[k].cursor.frame.t, m, k)
  }

  /** An access of the walk is to a dead frame exactly when it was preempted by the remove of that frame. */
  lemma TouchIsDead(ws: seq<World>, acts: seq<Act>, k: nat)
    requires IsWalkRun(ws, acts) && k < |acts|
    ensures acts[k].Touches() ==>
              ws[k].cursor.OnNode() && (Alive(ws[k], ws[k].cursor.frame) <==> !Preempted(ws, acts, k))
    ensures ws[k + 1].dead <==> ws[k].dead || Preempted(ws, acts, k)
  {
    hide ReachedAt, RemovedBetween;
    if acts[k].Touches() {
      var m := WhenReached(ws, acts, k);
      AliveUnlessRemoved(ws, acts, m, k);
      forall m' | ReachedAt(ws, acts, m', k) ensures m' == m {
        ReachedOnce(ws, acts, m, m', k);
      }
    }
  }

  lemma RunStep(ws: seq<World>, acts: seq<Act>, k: nat)
    requires IsWalkRun(ws, acts) && k < |acts|
    ensures CanAct(ws[k], acts[k]) && ws[k + 1] == Perform(ws[k], acts[k])
  {
  }

  lemma ReachedOnce(ws: seq<World>, acts: seq<Act>, m: nat, m': nat, k: nat)
    requires |ws| == |acts| + 1 && k < |ws| && ReachedAt(ws, acts, m, k) && ReachedAt(ws, acts, m', k)
    ensures m == m'
  {
  }

  /**
   Exactly which interleavings touch a dead frame: a walk has done so, in any state of any run,
   if and only if some access of it was preempted, after the walk came to a waiter and before it
   left it, by the remove of that very waiter.
   */
  lemma {:induction false} DeadIffPreempted(ws: seq<World>, acts: seq<Act>, n: nat)
    requires IsWalkRun(ws, acts) && n < |ws|
    ensures ws[n].dead <==> exists k :: 0 <= k < n && Preempted(ws, acts, k)
  {
    hide Perform, CanAct, Preempted;
    if n == 0 {
    } else {
      DeadIffPreempted(ws, acts, n - 1);
      TouchIsDead(ws, acts, n - 1);
    }
  }

  // ---------------------------------------------------------------- the list head taken for a waiter

  /** What the walk has before it. */
  function Tail(w: World): (r: seq<Tid>) {
    if w.cursor.OnNode() then Rest(w.s.ring, w.cursor.frame.t) else w.s.ring
  }

  /** The walk was between two reads of a link since the first of them at c. */
  ghost predicate TestedAt(acts: seq<Act>, c: nat, k: nat)
    requires k <= |acts|
  {
    c < k && acts[c].Tests() && forall i :: c < i < k ==> acts[i].Do?
  }

  lemma {:induction false} RestAppend(ring: seq<Tid>, t: Tid, u: Tid)
    requires t in ring
    ensures Rest(ring + [u], t) == Rest(ring, t) + [u]
  {
    assert (ring + [u])[1..] == ring[1..] + [u];
    if ring[0] != t {
      RestAppend(ring[1..], t, u);
    }
  }

  lemma HeadApart(ring: seq<Tid>)
    requires Distinct(ring) && ring != []
    ensures Distinct(ring[1..]) && ring[0] !in ring[1..]
  {
  }

  lemma RestOfHead(h: Tid, s: seq<Tid>, t: Tid)
    ensures Rest([h] + s, t) == if h == t then s else Rest(s, t)
  {
    assert ([h] + s)[1..] == s;
  }

  lemma {:induction false} RestWithout(ring: seq<Tid>, t: Tid, u: Tid)
    requires Distinct(ring) && t in ring && u != t
    ensures forall x :: x in Rest(Without(ring, u), t) <==> x in Rest(ring, t) && x != u
  {
    hide Distinct;
    var h, rest := ring[0], ring[1..];
    HeadApart(ring);
    assert t == h || t in rest;
    if h == u {
      assert Without(ring, u) == rest && Rest(ring, t) == Rest(rest, t);
    } else {
      assert Without(ring, u) == [h] + Without(rest, u);
      RestOfHead(h, Without(rest, u), t);
      if h == t {
        WithoutRemoves(rest, u);
      } else {
        RestWithout(rest, t, u);
      }
    }
  }

  /** One step of the others changes what the walk has before it by the waiter it appends or removes. */
  lemma TailStep(w: World, e: Step, x: Tid)
    requires WorldInv(w) && CanAct(w, Do(e))
    requires w.cursor.OnNode() ==> Alive(w, w.cursor.frame) && e != Remove(w.cursor.frame.t)
    ensures x in Tail(Perform(w, Do(e))) <==> e == Append(x) || (x in Tail(w) && e != Remove(x))
  {
    hide Walk, Rest, Without, Distinct;
    if e.Append? {
      if w.cursor.OnNode() {
        RestAppend(w.s.ring, w.cursor.frame.t, e.t);
      }
    } else if e.Remove? {
      WithoutRemoves(w.s.ring, e.t);
      if w.cursor.OnNode() {
        RestWithout(w.s.ring, w.cursor.frame.t, e.t);
      }
    } else {
      RingStays(w.s, e);
    }
  }

  lemma RingStays(s: State, e: Step)
    requires Inv(s) && Enabled(s, e) && !e.Append? && !e.Remove?
    ensures Apply(s, e).ring == s.ring
  {
  }

  /** Step i appends x, which is not removed until k. */
  ghost predicate AppendedToStay(acts: seq<Act>, x: Tid, i: nat, k: nat)
    requires i < k <= |acts|
  {
    acts[i] == Do(Append(x)) && !RemovedBetween(acts, x, i, k)
  }

  /** x was before the walk at c and has not been removed since, or has been appended since to stay. */
  ghost predicate Stayed(ws: seq<World>, acts: seq<Act>, x: Tid, c: nat, k: nat)
    requires |ws| == |acts| + 1 && c < k <= |acts|
  {
    || (x in Tail(ws[c]) && !RemovedBetween(acts, x, c, k))
    || exists i :: c < i < k && AppendedToStay(acts, x, i, k)
  }

  /** The walk stays where it is between two reads of a link. */
  ghost predicate Holds(ws: seq<World>, acts: seq<Act>, c: nat, k: nat)
    requires |ws| == |acts| + 1 && k < |ws|
  {
    && TestedAt(acts, c, k) && (ws[k].cursor.FromHead? || ws[k].cursor.Checked?)
    && (ws[k].cursor.OnNode() ==> Alive(ws[k], ws[k].cursor.frame))
  }

  lemma TestKeepsTail(w: World, a: Act)
    requires CanAct(w, a) && a.Tests() && !Perform(w, a).cursor.Off?
    ensures Tail(Perform(w, a)) == Tail(w) != []
  {
  }

  lemma RemovedOneMore(acts: seq<Act>, x: Tid, m: nat, k: nat)
    requires m < k < |acts|
    ensures RemovedBetween(acts, x, m, k + 1) <==> RemovedBetween(acts, x, m, k) || acts[k] == Do(Remove(x))
  {
  }

  lemma StayedOneMore(ws: seq<World>, acts: seq<Act>, x: Tid, c: nat, k: nat)
    requires |ws| == |acts| + 1 && c < k < |acts|
    ensures Stayed(ws, acts, x, c, k + 1)
            <==> acts[k] == Do(Append(x)) || (Stayed(ws, acts, x, c, k) && acts[k] != Do(Remove(x)))
  {
    hide RemovedBetween, Tail;
    RemovedOneMore(acts, x, c, k);
    NoneRemoved(acts, x, k);
    var k' := k + 1;
    if i :| c < i < k' && AppendedToStay(acts, x, i, k') {
      if i < k {
        RemovedOneMore(acts, x, i, k);
        assert AppendedToStay(acts, x, i, k);
      }
    }
    if acts[k] == Do(Append(x)) {
      assert AppendedToStay(acts, x, k, k + 1);
    } else if i :| c < i < k && AppendedToStay(acts, x, i, k) {
      RemovedOneMore(acts, x, i, k);
      assert acts[k] == Do(Remove(x)) || AppendedToStay(acts, x, i, k + 1);
      assert AppendedToStay(acts, x, i, k + 1) ==> Stayed(ws, acts, x, c, k + 1);
    }
  }

  lemma NoneRemoved(acts: seq<Act>, x: Tid, k: nat)
    requires k < |acts|
    ensures !RemovedBetween(acts, x, k, k + 1)
  {
  }

  lemma HeldBefore(ws: seq<World>, acts: seq<Act>, c: nat, k: nat)
    requires IsWalkRun(ws, acts) && c < k < |acts| && Holds(ws, acts, c, k + 1)
    ensures Holds(ws, acts, c, k) && acts[k].Do?
    ensures ws[k].cursor.OnNode() ==> acts[k] != Do(Remove(ws[k].cursor.frame.t))
  {
    hide Alive, WorldInv;
    RunStep(ws, acts, k);
    WorldIsSafe(ws, acts, k);
    if ws[k].cursor.OnNode() {
      CursorKnown(ws[k]);
      LifeOfFrame(ws[k], acts[k], ws[k].cursor.frame);
    }
  }

  /** What the walk has before it, from the history of the list since the first read. */
  lemma {:induction false} TailIsHistory(ws: seq<World>, acts: seq<Act>, x: Tid, c: nat, k: nat)
    requires IsWalkRun(ws, acts) && k < |ws| && Holds(ws, acts, c, k)
    ensures x in Tail(ws[k]) <==> Stayed(ws, acts, x, c, k)
    decreases k
  {
    hide Perform, CanAct, WorldInv, Tail, Stayed, Alive, RemovedBetween, Start;
    RunStep(ws, acts, k - 1);
    if k == c + 1 {
      TestKeepsTail(ws[c], acts[c]);
      NothingSince(ws, acts, x, c);
    } else {
      HeldBefore(ws, acts, c, k - 1);
      TailIsHistory(ws, acts, x, c, k - 1);
      WorldIsSafe(ws, acts, k - 1);
      TailStep(ws[k - 1], acts[k - 1].e, x);
      StayedOneMore(ws, acts, x, c, k - 1);
    }
  }

  lemma NothingSince(ws: seq<World>, acts: seq<Act>, x: Tid, c: nat)
    requires |ws| == |acts| + 1 && c < |acts|
    ensures Stayed(ws, acts, x, c, c + 1) <==> x in Tail(ws[c])
  {
    hide Tail;
  }
  lemma {:induction false} WhenTested(ws: seq<World>, acts: seq<Act>, k: nat) returns (c: nat)
    requires IsWalkRun(ws, acts) && k < |ws| && (ws[k].cursor.FromHead? || ws[k].cursor.Checked?)
    ensures TestedAt(acts, c, k)
    decreases k
  {
    hide Perform, CanAct;
    if k == 0 {
      assert false;
    } else if acts[k - 1].Tests() {
      c := k - 1;
    } else {
      WaitsToFetch(ws[k - 1], acts[k - 1]);
      c := WhenTested(ws, acts, k - 1);
    }
  }

  /** Between its two reads of a link the walk does nothing. */
  lemma WaitsToFetch(w: World, a: Act)
    requires CanAct(w, a) && !a.Tests() && (Perform(w, a).cursor.FromHead? || Perform(w, a).cursor.Checked?)
    ensures a.Do? && w.cursor == Perform(w, a).cursor
  {
  }

  /** Everything before the walk at c, and everything appended from then to k, has been removed by k. */
  ghost predicate AllGone(ws: seq<World>, acts: seq<Act>, c: nat, k: nat)
    requires |ws| == |acts| + 1 && c < k <= |acts|
  {
    && (forall x :: x in Tail(ws[c]) ==> RemovedBetween(acts, x, c, k))
    && (forall i :: c < i < k && acts[i].Do? && acts[i].e.Append? ==> RemovedBetween(acts, acts[i].e.t, i, k))
  }

  /** Step k reads a link that has come to lead to the list head since the test. */
  ghost predicate Emptied(ws: seq<World>, acts: seq<Act>, k: nat)
    requires |ws| == |acts| + 1 && k < |acts|
  {
    acts[k].Arrives() && exists c :: TestedAt(acts, c, k) && AllGone(ws, acts, c, k)
  }

  lemma GoneIsNoneStayed(ws: seq<World>, acts: seq<Act>, c: nat, k: nat)
    requires |ws| == |acts| + 1 && c < k <= |acts|
    ensures AllGone(ws, acts, c, k) <==> forall x :: !Stayed(ws, acts, x, c, k)
  {
    hide RemovedBetween, Tail;
    if AllGone(ws, acts, c, k) {
      forall x ensures !Stayed(ws, acts, x, c, k) {
        forall i | c < i < k && acts[i] == Do(Append(x)) ensures RemovedBetween(acts, x, i, k) {
          assert acts[i].e.t == x;
        }
      }
    }
    if forall x :: !Stayed(ws, acts, x, c, k) {
      forall x | x in Tail(ws[c]) ensures RemovedBetween(acts, x, c, k) {
        assert !Stayed(ws, acts, x, c, k);
      }
      forall i | c < i < k && acts[i].Do? && acts[i].e.Append? ensures RemovedBetween(acts, acts[i].e.t, i, k) {
        assert !Stayed(ws, acts, acts[i].e.t, c, k);
        assert !AppendedToStay(acts, acts[i].e.t, i, k);
      }
    }
  }

  lemma TailEmptied(ws: seq<World>, acts: seq<Act>, c: nat, k: nat)
    requires IsWalkRun(ws, acts) && k < |acts| && Holds(ws, acts, c, k) && acts[k].Arrives()
    ensures Tail(ws[k]) == [] <==> Emptied(ws, acts, k)
  {
    hide AllGone, Stayed, Tail, CanAct, Perform, Start, Alive;
    forall x ensures x in Tail(ws[k]) <==> Stayed(ws, acts, x, c, k) {
      TailIsHistory(ws, acts, x, c, k);
    }
    assert Tail(ws[k]) == [] <==> forall x :: x !in Tail(ws[k]) by { NoneIn(Tail(ws[k])); }
    GoneIsNoneStayed(ws, acts, c, k);
    forall c' | TestedAt(acts, c', k) ensures c' == c {
      TestedOnce(acts, c, c', k);
    }
  }

  lemma NoneIn(s: seq<Tid>)
    ensures s == [] <==> forall x :: x !in s
  {
    if s != [] {
      assert s[0] in s;
    }
  }

  lemma TestedOnce(acts: seq<Act>, c: nat, c': nat, k: nat)
    requires k <= |acts| && TestedAt(acts, c, k) && TestedAt(acts, c', k)
    ensures c == c'
  {
  }

  /** A read takes the list head for a waiter exactly when all that it could lead to has been removed. */
  lemma FetchIsStray(ws: seq<World>, acts: seq<Act>, k: nat)
    requires IsWalkRun(ws, acts) && k < |acts|
    ensures ws[k + 1].stray <==> ws[k].stray || (Emptied(ws, acts, k) && !Preempted(ws, acts, k))
  {
    hide Emptied, Preempted, Rest;
    RunStep(ws, acts, k);
    TouchIsDead(ws, acts, k);
    if acts[k].Arrives() {
      var c := WhenTested(ws, acts, k);
      if ws[k].cursor.OnNode() ==> Alive(ws[k], ws[k].cursor.frame) {
        TailEmptied(ws, acts, c, k);
      }
    }
    assert Emptied(ws, acts, k) ==> acts[k].Arrives() by { EmptiedArrives(ws, acts, k); }
    assert Preempted(ws, acts, k) ==> acts[k].Touches() by { PreemptedTouches(ws, acts, k); }
  }

  lemma EmptiedArrives(ws: seq<World>, acts: seq<Act>, k: nat)
    requires |ws| == |acts| + 1 && k < |acts|
    ensures Emptied(ws, acts, k) ==> acts[k].Arrives()
  {
    hide AllGone;
  }

  lemma PreemptedTouches(ws: seq<World>, acts: seq<Act>, k: nat)
    requires |ws| == |acts| + 1 && k < |acts|
    ensures Preempted(ws, acts, k) ==> acts[k].Touches()
  {
    hide ReachedAt, RemovedBetween;
  }

  /** Which reads take the list head for a waiter, over any run. */
  lemma {:induction false} StrayIffEmptied(ws: seq<World>, acts: seq<Act>, n: nat)
    requires IsWalkRun(ws, acts) && n < |ws|
    ensures ws[n].stray <==> exists k :: 0 <= k < n && Emptied(ws, acts, k) && !Preempted(ws, acts, k)
  {
    hide Perform, CanAct, Preempted, Emptied;
    if n == 0 {
    } else {
      StrayIffEmptied(ws, acts, n - 1);
      FetchIsStray(ws, acts, n - 1);
    }
  }

  /**
   Exactly which interleavings make a walk go wrong: in any state of any run, it has touched a
   dead frame or the list head if and only if some access was preempted, after the walk came to a
   waiter, by the remove of that waiter, or some second read of a link was preceded, since the
   first, by the removal of everything that was before the walk or was appended meanwhile.
   */
  lemma WrongIffPreemptedOrEmptied(ws: seq<World>, acts: seq<Act>, n: nat)
    requires IsWalkRun(ws, acts) && n < |ws|
    ensures ws[n].dead || ws[n].stray
            <==> exists k :: 0 <= k < n && (Preempted(ws, acts, k) || Emptied(ws, acts, k))
  {
    hide Preempted, Emptied, IsWalkRun;
    DeadIffPreempted(ws, acts, n);
    StrayIffEmptied(ws, acts, n);
  }
}
