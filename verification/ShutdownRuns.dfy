/**
 Three runs in which the walk of nrf_modem_os_shutdown in src/nrf_modem.c goes wrong, one for each
 of its ways to do so. Threads 0 and 1 sleep for a millisecond each.
 */
module ShutdownRuns {
  import opened SleepNotify
  import opened PreemptedShutdown

  /** One more act at the end of a run. */
  lemma Extend(ws: seq<World>, acts: seq<Act>, a: Act)
    requires IsWalkRun(ws, acts) && CanAct(ws[|acts|], a)
    ensures IsWalkRun(ws + [Perform(ws[|acts|], a)], acts + [a])
  {
    hide CanAct, Perform, Start;
  }

  /** Threads 0 and 1, in the generations n0 and n1 of their frames, and a walk that has not gone wrong. */
  function Pair(th0: Thread, th1: Thread, ring: seq<Tid>, n0: nat, n1: nat, cursor: Cursor, hits: set<Frame>)
    : (w: World)
  {
    World(State(true, ring, map[0 := th0, 1 := th1], false), map[0 := n0, 1 := n1], cursor, hits, false, false)
  }

  const FIRST: Frame := Frame(0, 1)

  /** Both threads go to sleep for a millisecond, and the walk finds the list not empty. */
  function Opening(n: nat): (w: World)
    requires n <= 7
  {
    match n
    case 0 => Pair(Outside, Outside, [], 0, 0, Off, {})
    case 1 => Pair(Entered(1, 1), Outside, [], 0, 0, Off, {})
    case 2 => Pair(Prepared(1, 1, 0), Outside, [], 0, 0, Off, {})
    case 3 => Pair(Listed(1, 1, 0), Outside, [0], 1, 0, Off, {})
    case 4 => Pair(Listed(1, 1, 0), Entered(1, 1), [0], 1, 0, Off, {})
    case 5 => Pair(Listed(1, 1, 0), Prepared(1, 1, 0), [0], 1, 0, Off, {})
    case 6 => Pair(Listed(1, 1, 0), Listed(1, 1, 0), [0, 1], 1, 1, Off, {})
    case 7 => Pair(Listed(1, 1, 0), Listed(1, 1, 0), [0, 1], 1, 1, FromHead, {})
  }

  function OpeningAct(n: nat): (a: Act)
    requires n < 7
  {
    match n
    case 0 => Do(Call(0, 1, 1))
    case 1 => Do(Prepare(0))
    case 2 => Do(Append(0))
    case 3 => Do(Call(1, 1, 1))
    case 4 => Do(Prepare(1))
    case 5 => Do(Append(1))
    case 6 => IsEmpty
  }

  lemma PairUpdate<T>(a: T, b: T, c: T)
    ensures map[0 := a, 1 := b][0 := c] == map[0 := c, 1 := b]
    ensures map[0 := a, 1 := b][1 := c] == map[0 := a, 1 := c]
  {
  }

  lemma FirstSleeps(n: nat)
    requires n < 3
    ensures CanAct(Opening(n), OpeningAct(n)) && Opening(n + 1) == Perform(Opening(n), OpeningAct(n))
  {
    var w, w' := Opening(n), Opening(n + 1);
    PairUpdate(w.s.threads[0], w.s.threads[1], w'.s.threads[0]);
    PairUpdate(w.generation[0], w.generation[1], 1);
    assert [] + [0] == [0];
  }

  lemma SecondSleeps(n: nat)
    requires 3 <= n < 7
    ensures CanAct(Opening(n), OpeningAct(n)) && Opening(n + 1) == Perform(Opening(n), OpeningAct(n))
  {
    var w, w' := Opening(n), Opening(n + 1);
    PairUpdate(w.s.threads[0], w.s.threads[1], w'.s.threads[1]);
    PairUpdate(w.generation[0], w.generation[1], 1);
    assert [0] + [1] == [0, 1];
  }

  lemma {:induction false} OpeningRun(n: nat) returns (ws: seq<World>, acts: seq<Act>)
    requires n <= 7
    ensures IsWalkRun(ws, acts) && |acts| == n && ws[n] == Opening(n)
  {
    hide CanAct, Perform, OpeningAct;
    if n == 0 {
      ws, acts := [Opening(0)], [];
    } else {
      ws, acts := OpeningRun(n - 1);
      if n <= 3 {
        FirstSleeps(n - 1);
      } else {
        SecondSleeps(n - 1);
      }
      Extend(ws, acts, OpeningAct(n - 1));
      ws, acts := ws + [Opening(n)], acts + [OpeningAct(n - 1)];
    }
  }

  /** Three ways on: the waiter the walk is at goes, the whole list goes, the only successor goes. */
  datatype Story = WaiterGoes | ListGoes | SuccessorGoes
  {
    function Length(): (n: nat) {
      match this
      case WaiterGoes => 4
      case ListGoes => 5
      case SuccessorGoes => 6
    }
  }

  function Scene(story: Story, n: nat): (w: World)
    requires n <= story.Length()
  {
    if n == 0 then Opening(7)
    else
      match story
      case WaiterGoes => LosesWaiter(n)
      case ListGoes => LosesList(n)
      case SuccessorGoes => LosesSuccessor(n)
  }

  function LosesWaiter(n: nat): (w: World)
    requires 1 <= n <= 4
  {
    match n
    case 1 => Pair(Listed(1, 1, 0), Listed(1, 1, 0), [0, 1], 1, 1, At(FIRST, false), {})
    case 2 => Pair(Awake(1, 1, 0, false), Listed(1, 1, 0), [0, 1], 1, 1, At(FIRST, false), {})
    case 3 => Pair(Unlisted(1, 1, false), Listed(1, 1, 0), [1], 1, 1, At(FIRST, false), {})
    case 4 => Pair(Unlisted(1, 1, false), Listed(1, 1, 0), [1], 1, 1, Off, {}).(dead := true)
  }

  function LosesList(n: nat): (w: World)
    requires 1 <= n <= 5
  {
    match n
    case 1 => Pair(Awake(1, 1, 0, false), Listed(1, 1, 0), [0, 1], 1, 1, FromHead, {})
    case 2 => Pair(Unlisted(1, 1, false), Listed(1, 1, 0), [1], 1, 1, FromHead, {})
    case 3 => Pair(Unlisted(1, 1, false), Awake(1, 1, 0, false), [1], 1, 1, FromHead, {})
    case 4 => Pair(Unlisted(1, 1, false), Unlisted(1, 1, false), [], 1, 1, FromHead, {})
    case 5 => Pair(Unlisted(1, 1, false), Unlisted(1, 1, false), [], 1, 1, Off, {}).(stray := true)
  }

  function LosesSuccessor(n: nat): (w: World)
    requires 1 <= n <= 6
  {
    match n
    case 1 => Pair(Listed(1, 1, 0), Listed(1, 1, 0), [0, 1], 1, 1, At(FIRST, false), {})
    case 2 => Pair(Listed(1, 1, 1), Listed(1, 1, 0), [0, 1], 1, 1, At(FIRST, true), {FIRST})
    case 3 => Pair(Listed(1, 1, 1), Listed(1, 1, 0), [0, 1], 1, 1, Checked(FIRST), {FIRST})
    case 4 => Pair(Listed(1, 1, 1), Awake(1, 1, 0, false), [0, 1], 1, 1, Checked(FIRST), {FIRST})
    case 5 => Pair(Listed(1, 1, 1), Unlisted(1, 1, false), [0], 1, 1, Checked(FIRST), {FIRST})
    case 6 => Pair(Listed(1, 1, 1), Unlisted(1, 1, false), [0], 1, 1, Off, {FIRST}).(stray := true)
  }

  function SceneAct(story: Story, n: nat): (a: Act)
    requires n < story.Length()
  {
    match story
    case WaiterGoes => [FetchFirst, Do(Expire(0)), Do(Remove(0)), PostHere][n]
    case ListGoes => [Do(Expire(0)), Do(Remove(0)), Do(Expire(1)), Do(Remove(1)), FetchFirst][n]
    case SuccessorGoes => [FetchFirst, PostHere, Check, Do(Expire(1)), Do(Remove(1)), Fetch][n]
  }

  lemma SmallLists()
    ensures Without<Tid>([0, 1], 0) == [1] && Without<Tid>([1], 1) == [] && Without<Tid>([0, 1], 1) == [0]
    ensures Rest([0, 1], 0) == [1] && Rest([0], 0) == []
  {
    assert [0, 1][1..] == [1];
    assert Without<Tid>([1], 1) == [];
    assert Rest([0], 0) == [];
  }

  lemma WaiterSceneFollows(n: nat)
    requires n < 4
    ensures CanAct(Scene(WaiterGoes, n), SceneAct(WaiterGoes, n))
    ensures Scene(WaiterGoes, n + 1) == Perform(Scene(WaiterGoes, n), SceneAct(WaiterGoes, n))
  {
    hide Without, Rest;
    SmallLists();
    var w, w' := Scene(WaiterGoes, n), Scene(WaiterGoes, n + 1);
    PairUpdate(w.s.threads[0], w.s.threads[1], w'.s.threads[0]);
  }

  lemma ListSceneFollows(n: nat)
    requires n < 2
    ensures CanAct(Scene(ListGoes, n), SceneAct(ListGoes, n))
    ensures Scene(ListGoes, n + 1) == Perform(Scene(ListGoes, n), SceneAct(ListGoes, n))
  {
    hide Without, Rest;
    SmallLists();
    var w, w' := Scene(ListGoes, n), Scene(ListGoes, n + 1);
    PairUpdate(w.s.threads[0], w.s.threads[1], w'.s.threads[0]);
  }

  lemma ListSceneEnds(n: nat)
    requires 2 <= n < 5
    ensures CanAct(Scene(ListGoes, n), SceneAct(ListGoes, n))
    ensures Scene(ListGoes, n + 1) == Perform(Scene(ListGoes, n), SceneAct(ListGoes, n))
  {
    hide Without, Rest;
    SmallLists();
    var w, w' := Scene(ListGoes, n), Scene(ListGoes, n + 1);
    PairUpdate(w.s.threads[0], w.s.threads[1], w'.s.threads[1]);
  }

  lemma SuccessorSceneFollows(n: nat)
    requires n < 3
    ensures CanAct(Scene(SuccessorGoes, n), SceneAct(SuccessorGoes, n))
    ensures Scene(SuccessorGoes, n + 1) == Perform(Scene(SuccessorGoes, n), SceneAct(SuccessorGoes, n))
  {
    hide Without, Rest;
    SmallLists();
    var w, w' := Scene(SuccessorGoes, n), Scene(SuccessorGoes, n + 1);
    PairUpdate(w.s.threads[0], w.s.threads[1], w'.s.threads[0]);
    assert {} + {FIRST} == {FIRST};
  }

  lemma SuccessorSceneEnds(n: nat)
    requires 3 <= n < 6
    ensures CanAct(Scene(SuccessorGoes, n), SceneAct(SuccessorGoes, n))
    ensures Scene(SuccessorGoes, n + 1) == Perform(Scene(SuccessorGoes, n), SceneAct(SuccessorGoes, n))
  {
    hide Without, Rest;
    SmallLists();
    var w, w' := Scene(SuccessorGoes, n), Scene(SuccessorGoes, n + 1);
    PairUpdate(w.s.threads[0], w.s.threads[1], w'.s.threads[1]);
  }

  lemma SceneFollows(story: Story, n: nat)
    requires n < story.Length()
    ensures CanAct(Scene(story, n), SceneAct(story, n))
    ensures Scene(story, n + 1) == Perform(Scene(story, n), SceneAct(story, n))
  {
    hide CanAct, Perform, Scene, SceneAct;
    match story
    case WaiterGoes => WaiterSceneFollows(n);
    case ListGoes =>
      if n < 2 {
        ListSceneFollows(n);
      } else {
        ListSceneEnds(n);
      }
    case SuccessorGoes =>
      if n < 3 {
        SuccessorSceneFollows(n);
      } else {
        SuccessorSceneEnds(n);
      }
  }

  lemma {:induction false} SceneRun(story: Story, n: nat) returns (ws: seq<World>, acts: seq<Act>)
    requires n <= story.Length()
    ensures IsWalkRun(ws, acts) && |acts| == 7 + n && ws[7 + n] == Scene(story, n)
  {
    hide CanAct, Perform, SceneAct;
    if n == 0 {
      ws, acts := OpeningRun(7);
    } else {
      ws, acts := SceneRun(story, n - 1);
      SceneFollows(story, n - 1);
      Extend(ws, acts, SceneAct(story, n - 1));
      ws, acts := ws + [Scene(story, n)], acts + [SceneAct(story, n - 1)];
    }
  }

  /** A run in which only the list goes wrong: no access was preempted by the remove of its waiter. */
  ghost predicate StraysOnly(ws: seq<World>, acts: seq<Act>) {
    && IsWalkRun(ws, acts) && ws[|acts|].stray
    && forall k :: 0 <= k < |acts| ==> !Preempted(ws, acts, k)
  }

  /**
   A dead frame: the walk comes to a waiter, its timeout fires, the thread leaves the list, and
   the walk posts a semaphore that is gone.
   */
  lemma DeadFrameHappens() returns (ws: seq<World>, acts: seq<Act>)
    ensures IsWalkRun(ws, acts) && ws[|acts|].dead
  {
    hide IsWalkRun;
    ws, acts := SceneRun(WaiterGoes, 4);
  }

  /** The list head, from td_first: list_empty is false, every waiter leaves, and the head is read. */
  lemma EmptiedListHappens() returns (ws: seq<World>, acts: seq<Act>)
    ensures StraysOnly(ws, acts) && ws[|acts|].hits == {}
  {
    hide IsWalkRun, Preempted;
    ws, acts := SceneRun(ListGoes, 5);
    RunLength(ws, acts);
    DeadIffPreempted(ws, acts, |acts|);
  }

  /**
   The list head, from td_next: the test sees a successor, it leaves, and the link is read again.
   The waiter the walk comes from is still alive, alone on the list and posted: td_next of the
   list head would lead to it a second time.
   */
  lemma EmptiedLinkHappens() returns (ws: seq<World>, acts: seq<Act>)
    ensures StraysOnly(ws, acts)
    ensures var w := ws[|acts|]; w.s.ring == [FIRST.t] && Alive(w, FIRST) && FIRST in w.hits
  {
    hide IsWalkRun, Preempted;
    ws, acts := SceneRun(SuccessorGoes, 6);
    RunLength(ws, acts);
    DeadIffPreempted(ws, acts, |acts|);
  }

  lemma RunLength(ws: seq<World>, acts: seq<Act>)
    requires IsWalkRun(ws, acts)
    ensures |ws| == |acts| + 1
  {
  }
}
