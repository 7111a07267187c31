/**
 What the walk of nrf_modem_os_shutdown in src/nrf_modem.c achieves when it does not go wrong,
 whoever enters or leaves the list while it is under way.
 */
module SafeShutdown {
  import opened SleepNotify
  import opened PreemptedShutdown

  // ---------------------------------------------------------------- what a safe walk posts

  /** The list at the node of the walk: all before it posted, nothing after it. */
  ghost predicate SplitAt(w: World, front: seq<Tid>, back: seq<Tid>) {
    && w.cursor.OnNode() && w.s.ring == front + [w.cursor.frame.t] + back
    && (forall t :: t in w.s.ring ==> t in w.generation)
    && (forall t :: t in front ==> FrameOf(w, t) in w.hits)
    && (forall t :: t in back ==> FrameOf(w, t) !in w.hits)
    && (w.cursor.frame in w.hits <==> w.cursor.Done())
  }

  ghost predicate WalkInv(w: World) {
    && (w.cursor.FromHead? ==> w.hits == {})
    && (w.cursor.OnNode() && Alive(w, w.cursor.frame) ==> exists front, back :: SplitAt(w, front, back))
  }

  lemma {:induction false} RestOfSplit(front: seq<Tid>, t: Tid, back: seq<Tid>)
    requires t !in front
    ensures Rest(front + [t] + back, t) == back
  {
    var ring := front + [t] + back;
    if front == [] {
      assert ring[0] == t && ring[1..] == back;
    } else {
      assert ring[0] == front[0] && ring[1..] == front[1..] + [t] + back;
      RestOfSplit(front[1..], t, back);
    }
  }

  lemma {:induction false} WithoutInFront(front: seq<Tid>, back: seq<Tid>, u: Tid)
    ensures Without(front + back, u) == if u in front then Without(front, u) + back else front + Without(back, u)
  {
    if front == [] {
      assert front + back == back;
    } else {
      assert (front + back)[0] == front[0] && (front + back)[1..] == front[1..] + back;
      WithoutInFront(front[1..], back, u);
      if front[0] == u {
        assert front[1..] + back == Without(front, u) + back;
      } else {
        assert u in front <==> u in front[1..];
        assert [front[0]] + (front[1..] + Without(back, u)) == front + Without(back, u);
      }
    }
  }

  lemma {:induction false} WithoutIsPart(s: seq<Tid>, u: Tid)
    ensures forall x :: x in Without(s, u) ==> x in s
  {
    if s == [] {
    } else {
      WithoutIsPart(s[1..], u);
    }
  }

  lemma RingSplitRemove(front: seq<Tid>, t: Tid, back: seq<Tid>, u: Tid)
    returns (front': seq<Tid>, back': seq<Tid>)
    requires u != t
    ensures Without(front + [t] + back, u) == front' + [t] + back'
    ensures forall x :: x in front' ==> x in front
    ensures forall x :: x in back' ==> x in back
  {
    hide Without;
    assert front + [t] + back == front + ([t] + back);
    WithoutInFront(front, [t] + back, u);
    WithoutNext(t, back, u);
    WithoutIsPart(front, u);
    WithoutIsPart(back, u);
    if u in front {
      front', back' := Without(front, u), back;
    } else {
      front', back' := front, Without(back, u);
    }
    assert front' + ([t] + back') == front' + [t] + back';
  }

  lemma WithoutNext(t: Tid, back: seq<Tid>, u: Tid)
    requires t != u
    ensures Without([t] + back, u) == [t] + Without(back, u)
  {
    assert ([t] + back)[1..] == back;
  }

  /** Removing another thread keeps the split. */
  lemma SplitRemove(w: World, front: seq<Tid>, back: seq<Tid>, u: Tid) returns (front': seq<Tid>, back': seq<Tid>)
    requires WorldInv(w) && SplitAt(w, front, back) && Enabled(w.s, Remove(u)) && u != w.cursor.frame.t
    ensures SplitAt(Perform(w, Do(Remove(u))), front', back')
  {
    hide Inv, Without;
    front', back' := RingSplitRemove(front, w.cursor.frame.t, back, u);
  }

  /** A new waiter comes after the walk, in a frame that it has not posted. */
  lemma SplitAppend(w: World, front: seq<Tid>, back: seq<Tid>, u: Tid)
    requires WorldInv(w) && SplitAt(w, front, back) && Enabled(w.s, Append(u)) && u in w.generation
    ensures SplitAt(Perform(w, Do(Append(u))), front, back + [u])
  {
    var t := w.cursor.frame.t;
    assert u !in w.s.ring;
    assert w.s.ring + [u] == front + [t] + (back + [u]);
  }

  lemma SplitStays(w: World, front: seq<Tid>, back: seq<Tid>, e: Step)
    requires WorldInv(w) && SplitAt(w, front, back) && CanAct(w, Do(e)) && !e.Append? && !e.Remove?
    ensures SplitAt(Perform(w, Do(e)), front, back)
  {
    RingStays(w.s, e);
  }

  lemma DoKeepsCursor(w: World, e: Step)
    requires CanAct(w, Do(e))
    ensures Perform(w, Do(e)).cursor == w.cursor && Perform(w, Do(e)).hits == w.hits
    ensures Enabled(w.s, e) && (e.Append? ==> e.t in w.generation)
  {
  }

  lemma DoKeepsWalk(w: World, e: Step)
    requires WorldInv(w) && WalkInv(w) && CanAct(w, Do(e))
    ensures WalkInv(Perform(w, Do(e)))
  {
    hide Perform, CanAct, WorldInv, SplitAt, Alive, Enabled;
    var r := Perform(w, Do(e));
    DoKeepsCursor(w, e);
    if r.cursor.OnNode() && Alive(r, r.cursor.frame) {
      CursorKnown(w);
      LifeOfFrame(w, Do(e), w.cursor.frame);
      var front, back :| SplitAt(w, front, back);
      if e.Remove? {
        var front', back' := SplitRemove(w, front, back, e.t);
      } else if e.Append? {
        SplitAppend(w, front, back, e.t);
      } else {
        SplitStays(w, front, back, e);
      }
    }
  }

  lemma FetchFirstKeepsWalk(w: World)
    requires WorldInv(w) && WalkInv(w) && CanAct(w, FetchFirst)
    ensures WalkInv(Perform(w, FetchFirst))
  {
    var r := Perform(w, FetchFirst);
    if w.s.ring != [] {
      assert r.s.ring == [] + [r.cursor.frame.t] + w.s.ring[1..];
      assert SplitAt(r, [], w.s.ring[1..]);
    }
  }

  lemma PostKeepsWalk(w: World)
    requires WorldInv(w) && WalkInv(w) && CanAct(w, PostHere)
    ensures WalkInv(Perform(w, PostHere))
    ensures Alive(w, w.cursor.frame) ==> w.cursor.frame !in w.hits
  {
    if Alive(w, w.cursor.frame) {
      var front, back :| SplitAt(w, front, back);
      var r := Perform(w, PostHere);
      forall t | t in back ensures FrameOf(r, t) !in r.hits {
        BackIsOther(w, front, back, t);
      }
      assert SplitAt(r, front, back);
    }
  }

  lemma BackIsOther(w: World, front: seq<Tid>, back: seq<Tid>, t: Tid)
    requires Distinct(w.s.ring) && SplitAt(w, front, back) && t in back
    ensures t != w.cursor.frame.t && t !in front
  {
    var i :| 0 <= i < |back| && back[i] == t;
    assert w.s.ring[|front| + 1 + i] == t && w.s.ring[|front|] == w.cursor.frame.t;
    forall j | 0 <= j < |front| ensures front[j] != t {
      assert w.s.ring[j] == front[j];
    }
  }

  lemma FrontIsOther(w: World, front: seq<Tid>, back: seq<Tid>)
    requires Distinct(w.s.ring) && SplitAt(w, front, back)
    ensures w.cursor.frame.t !in front
  {
    forall j | 0 <= j < |front| ensures front[j] != w.cursor.frame.t {
      assert w.s.ring[j] == front[j] && w.s.ring[|front|] == w.cursor.frame.t;
    }
  }

  /** The frame of t has been posted by this walk. */
  predicate Hit(w: World, t: Tid) {
    t in w.generation && FrameOf(w, t) in w.hits
  }

  ghost predicate AllHit(w: World) {
    forall t :: t in w.s.ring ==> Hit(w, t)
  }

  /** Everything up to the node that the walk leaves has been posted. */
  lemma LeavingIsHit(w: World, front: seq<Tid>, back: seq<Tid>)
    requires SplitAt(w, front, back) && w.cursor.Done() && Alive(w, w.cursor.frame)
    ensures forall t :: t in front + [w.cursor.frame.t] ==> Hit(w, t)
  {
    assert FrameOf(w, w.cursor.frame.t) == w.cursor.frame;
  }

  lemma CheckKeepsWalk(w: World)
    requires WorldInv(w) && WalkInv(w) && CanAct(w, Check)
    ensures WalkInv(Perform(w, Check))
    ensures Alive(w, w.cursor.frame) && Perform(w, Check).cursor.Off? ==> AllHit(w)
  {
    hide Rest, Inv, Hit;
    if Alive(w, w.cursor.frame) {
      var front, back :| SplitAt(w, front, back);
      RingOfSplit(w, front, back);
      LeavingIsHit(w, front, back);
      if back == [] {
        assert w.s.ring == front + [w.cursor.frame.t];
      } else {
        assert SplitAt(Perform(w, Check), front, back);
      }
    }
  }

  lemma FetchMovesSplit(w: World, front: seq<Tid>, back: seq<Tid>)
    requires SplitAt(w, front, back) && CanAct(w, Fetch) && Alive(w, w.cursor.frame)
    requires back != [] && Rest(w.s.ring, w.cursor.frame.t) == back
    ensures SplitAt(Perform(w, Fetch), front + [w.cursor.frame.t], back[1..])
  {
    hide Rest;
    LeavingIsHit(w, front, back);
    var t, r := w.cursor.frame.t, Perform(w, Fetch);
    assert r == w.(cursor := At(FrameOf(w, back[0]), false));
    assert w.s.ring == (front + [t]) + [back[0]] + back[1..];
    forall u | u in front + [t] ensures FrameOf(r, u) in r.hits {
      assert Hit(w, u);
    }
    forall u | u in back[1..] ensures FrameOf(r, u) !in r.hits {
      assert u in back;
    }
    assert back[0] in back;
    assert r.cursor.frame !in r.hits && !r.cursor.Done();
  }

  lemma FetchKeepsWalk(w: World)
    requires WorldInv(w) && WalkInv(w) && CanAct(w, Fetch)
    ensures WalkInv(Perform(w, Fetch))
  {
    hide Rest, Inv, SplitAt;
    if Alive(w, w.cursor.frame) {
      var front, back :| SplitAt(w, front, back);
      RingOfSplit(w, front, back);
      if back != [] {
        FetchMovesSplit(w, front, back);
      }
    }
  }

  lemma RingOfSplit(w: World, front: seq<Tid>, back: seq<Tid>)
    requires WorldInv(w) && SplitAt(w, front, back)
    ensures w.s.ring == front + [w.cursor.frame.t] + back && Rest(w.s.ring, w.cursor.frame.t) == back
  {
    FrontIsOther(w, front, back);
    RestOfSplit(front, w.cursor.frame.t, back);
  }

  lemma ActKeepsWalk(w: World, a: Act)
    requires WorldInv(w) && WalkInv(w) && CanAct(w, a)
    ensures WalkInv(Perform(w, a))
  {
    hide WorldInv, SplitAt, Alive, Rest;
    match a
    case Do(e) => DoKeepsWalk(w, e);
    case IsEmpty =>
    case FetchFirst => FetchFirstKeepsWalk(w);
    case PostHere => PostKeepsWalk(w);
    case Check => CheckKeepsWalk(w);
    case Fetch => FetchKeepsWalk(w);
  }

  lemma {:induction false} WalkIsOrdered(ws: seq<World>, acts: seq<Act>, k: nat)
    requires IsWalkRun(ws, acts) && k < |ws|
    ensures WorldInv(ws[k]) && WalkInv(ws[k])
  {
    hide CanAct, Perform, WorldInv, WalkInv;
    WorldIsSafe(ws, acts, k);
    if k == 0 {
      NoWalkYet(ws[0]);
    } else {
      WalkIsOrdered(ws, acts, k - 1);
      RunStep(ws, acts, k - 1);
      ActKeepsWalk(ws[k - 1], acts[k - 1]);
    }
  }

  lemma NoWalkYet(w: World)
    requires Start(w)
    ensures WalkInv(w)
  {
  }

  /**
   What a walk that does not go wrong achieves, whoever enters or leaves the list meanwhile: it
   posts no frame twice, and when it comes to the end every frame then on the list has been
   posted, those that were appended during the walk included.
   */
  lemma SafeWalkPostsAll(ws: seq<World>, acts: seq<Act>, k: nat)
    requires IsWalkRun(ws, acts) && k < |acts| && !ws[k + 1].dead && !ws[k + 1].stray
    ensures acts[k] == PostHere ==> ws[k].cursor.At? && ws[k].cursor.frame !in ws[k].hits
                                    && ws[k + 1].hits == ws[k].hits + {ws[k].cursor.frame}
    ensures acts[k].Tests() && ws[k + 1].cursor.Off? ==> AllHit(ws[k + 1])
  {
    hide WalkInv, Rest;
    WalkIsOrdered(ws, acts, k);
    RunStep(ws, acts, k);
    if acts[k] == PostHere {
      PostKeepsWalk(ws[k]);
    } else if acts[k] == Check {
      CheckKeepsWalk(ws[k]);
    }
  }

  // ---------------------------------------------------------------- what a post decides

  lemma SecuredInWalk(w: World, a: Act, t: Tid)
    requires WorldInv(w) && CanAct(w, a) && t in w.s.threads && Secured(w.s.threads[t])
    requires forall r :: a != Do(Return(t, r))
    ensures t in Perform(w, a).s.threads && Secured(Perform(w, a).s.threads[t])
  {
    hide Inv, Rest;
    if a.Do? {
      SecuredStays(w.s, a.e, t);
    }
  }

  lemma {:induction false} SecuredToReturn(ws: seq<World>, acts: seq<Act>, t: Tid, k: nat, m: nat)
    requires IsWalkRun(ws, acts) && k <= m < |ws|
    requires t in ws[k].s.threads && Secured(ws[k].s.threads[t])
    requires forall i, r :: k <= i < m ==> acts[i] != Do(Return(t, r))
    ensures t in ws[m].s.threads && Secured(ws[m].s.threads[t])
    decreases m
  {
    hide Perform, CanAct, WorldInv, Secured;
    if m == k {
    } else {
      SecuredToReturn(ws, acts, t, k, m - 1);
      WorldIsSafe(ws, acts, m - 1);
      RunStep(ws, acts, m - 1);
      SecuredInWalk(ws[m - 1], acts[m - 1], t);
    }
  }

  /** A thread that is posted in time returns 0, or -NRF_ESHUTDOWN if the modem is down by then. */
  lemma SecuredDecides(ws: seq<World>, acts: seq<Act>, t: Tid, k: nat, e: nat, result: Result)
    requires IsWalkRun(ws, acts) && k <= e < |acts|
    requires t in ws[k].s.threads && Secured(ws[k].s.threads[t])
    requires acts[e] == Do(Return(t, result)) && forall i, r :: k <= i < e ==> acts[i] != Do(Return(t, r))
    ensures result == if ws[e].s.initialised then Success else ShutDown
  {
    SecuredToReturn(ws, acts, t, k, e);
    RunStep(ws, acts, e);
  }

  /** A post by the walk on a waiter whose timeout has not fired decides that call. */
  lemma PostDecides(ws: seq<World>, acts: seq<Act>, k: nat, e: nat, result: Result)
    requires IsWalkRun(ws, acts) && k < e < |acts| && acts[k] == PostHere && !ws[k + 1].dead
    requires ws[k].cursor.At? && ws[k].cursor.frame.t in ws[k].s.threads
    requires ws[k].s.threads[ws[k].cursor.frame.t].Listed?
    requires var t := ws[k].cursor.frame.t;
             acts[e] == Do(Return(t, result)) && forall i, r :: k <= i < e ==> acts[i] != Do(Return(t, r))
    ensures result == if ws[e].s.initialised then Success else ShutDown
  {
    RunStep(ws, acts, k);
    SecuredDecides(ws, acts, ws[k].cursor.frame.t, k + 1, e, result);
  }

  /** A waiter that this walk has posted has a post to take, unless it has taken one or timed out. */
  ghost predicate HitsStay(w: World) {
    forall t :: t in w.s.threads && w.s.threads[t].Listed? && Hit(w, t) ==> w.s.threads[t].sem > 0
  }

  lemma ActKeepsHits(w: World, a: Act)
    requires WorldInv(w) && HitsStay(w) && CanAct(w, a)
    ensures HitsStay(Perform(w, a))
  {
    hide Inv, Rest;
    if a.Do? {
      StepKeepsHits(w, a.e);
    }
  }

  lemma StepKeepsHits(w: World, e: Step)
    requires WorldInv(w) && HitsStay(w) && CanAct(w, Do(e))
    ensures HitsStay(Perform(w, Do(e)))
  {
    hide Inv, Rest;
    var r := Perform(w, Do(e));
    forall t | t in r.s.threads && r.s.threads[t].Listed? && Hit(r, t) ensures r.s.threads[t].sem > 0 {
      if !e.By(t) {
        StepOnOther(w.s, e, t);
      }
    }
  }

  lemma {:induction false} HitsAlwaysStay(ws: seq<World>, acts: seq<Act>, k: nat)
    requires IsWalkRun(ws, acts) && k < |ws|
    ensures HitsStay(ws[k])
  {
    hide CanAct, Perform, WorldInv, HitsStay;
    if k == 0 {
      NoHitsYet(ws[0]);
    } else {
      HitsAlwaysStay(ws, acts, k - 1);
      WorldIsSafe(ws, acts, k - 1);
      RunStep(ws, acts, k - 1);
      ActKeepsHits(ws[k - 1], acts[k - 1]);
    }
  }

  lemma NoHitsYet(w: World)
    requires Start(w)
    ensures HitsStay(w)
  {
  }

  /**
   What shutdown is for: once a walk that does not go wrong has come to the end, every call that
   is then on the list and has not timed out is decided, late arrivals included; none of them
   returns -NRF_EAGAIN.
   */
  lemma ShutdownReleases(ws: seq<World>, acts: seq<Act>, t: Tid, k: nat, e: nat, result: Result)
    requires IsWalkRun(ws, acts) && k < e < |acts| && !ws[k + 1].dead && !ws[k + 1].stray
    requires acts[k].Tests() && ws[k + 1].cursor.Off?
    requires t in ws[k + 1].s.threads && ws[k + 1].s.threads[t].Listed?
    requires acts[e] == Do(Return(t, result)) && forall i, r :: k < i < e ==> acts[i] != Do(Return(t, r))
    ensures result == if ws[e].s.initialised then Success else ShutDown
  {
    hide CanAct, Perform, Hit;
    SafeWalkPostsAll(ws, acts, k);
    HitsAlwaysStay(ws, acts, k + 1);
    WorldIsSafe(ws, acts, k + 1);
    assert t in ws[k + 1].s.ring;
    SecuredDecides(ws, acts, t, k + 1, e, result);
  }
}
