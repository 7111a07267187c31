/**
 nrfx_ipc_irq_handler of src/nrfx_ipc.c as a step machine: the handler takes a snapshot of the
 pending register, and for each set bit clears the event latch and then calls the client. The
 modem may raise events between any two of these steps.
 */
module IpcDispatch {
  import opened Arith

  const CHANNELS: nat := 8

  datatype Event = Raised(channel: nat) | Handled(channel: nat)

  /** Where the interrupt handler stands. */
  datatype Pc =
    | Idle
    | Scanning(pending: nat, i: nat)
    | Cleared(pending: nat, i: nat)

  /** The latches, the enable mask, the handler, and the log of raises and client calls. */
  datatype State = State(latched: seq<bool>, enabled: seq<bool>, pc: Pc, log: seq<Event>)

  datatype Step = Raise(channel: nat) | Enter | Skip | Clear | Call | Exit

  // ---------------------------------------------------------------- the pending register

  /** The number whose bits, from the lowest, are the given ones. */
  function Word(bits: seq<bool>): (w: nat) {
    if bits == [] then 0 else (if bits[0] then 1 else 0) + 2 * Word(bits[1..])
  }

  /** pending & (1 << i) */
  predicate BitSet(w: nat, i: nat) {
    And(w, Pow2(i)) != 0
  }

  lemma {:induction false} BitOfWord(bits: seq<bool>, i: nat)
    requires i < |bits|
    ensures BitSet(Word(bits), i) <==> bits[i]
  {
    var w := Word(bits);
    assert w / 2 == Word(bits[1..]);
    if i == 0 {
      AndZero(w / 2);
      assert Pow2(0) == 1;
    } else {
      BitOfWord(bits[1..], i - 1);
      assert Pow2(i) == 2 * Pow2(i - 1);
      assert w == 0 ==> And(0, Pow2(i - 1)) == 0;
    }
  }

  /** IPC_INTPEND: the latched events that are enabled. */
  function Pending(s: State): (w: nat)
    requires |s.latched| == |s.enabled| == CHANNELS
  {
    Word(seq(CHANNELS, i requires 0 <= i < CHANNELS => s.latched[i] && s.enabled[i]))
  }

  lemma PendingBits(s: State, i: nat)
    requires |s.latched| == |s.enabled| == 8 && i < 8
    ensures BitSet(Pending(s), i) <==> s.latched[i] && s.enabled[i]
  {
    BitOfWord(seq(CHANNELS, k requires 0 <= k < CHANNELS => s.latched[k] && s.enabled[k]), i);
  }

  // ---------------------------------------------------------------- steps

  predicate Enabled(s: State, e: Step) {
    && |s.latched| == |s.enabled| == CHANNELS
    && match e
       case Raise(channel) => channel < CHANNELS
       case Enter => s.pc.Idle?
       case Skip => s.pc.Scanning? && s.pc.i < CHANNELS && !BitSet(s.pc.pending, s.pc.i)
       case Clear => s.pc.Scanning? && s.pc.i < CHANNELS && BitSet(s.pc.pending, s.pc.i)
       case Call => s.pc.Cleared? && s.pc.i < CHANNELS
       case Exit => s.pc.Scanning? && s.pc.i == CHANNELS
  }

  function Apply(s: State, e: Step): (r: State)
    requires Enabled(s, e)
    ensures |r.latched| == CHANNELS && r.enabled == s.enabled
  {
    match e
    case Raise(channel) => s.(latched := s.latched[channel := true], log := s.log + [Raised(channel)])
    case Enter => s.(pc := Scanning(Pending(s), 0))
    case Skip => s.(pc := Scanning(s.pc.pending, s.pc.i + 1))
    case Clear => s.(latched := s.latched[s.pc.i := false], pc := Cleared(s.pc.pending, s.pc.i))
    case Call => s.(pc := Scanning(s.pc.pending, s.pc.i + 1), log := s.log + [Handled(s.pc.i)])
    case Exit => s.(pc := Idle)
  }

  // ---------------------------------------------------------------- lossless dispatch

  function Raises(log: seq<Event>, i: nat): (n: nat) {
    if log == [] then 0
    else Raises(log[..|log| - 1], i) + if log[|log| - 1] == Raised(i) then 1 else 0
  }

  function Calls(log: seq<Event>, i: nat): (n: nat) {
    if log == [] then 0
    else Calls(log[..|log| - 1], i) + if log[|log| - 1] == Handled(i) then 1 else 0
  }

  /** The last raise on channel i has had no client call after it. */
  predicate Owed(log: seq<Event>, i: nat) {
    log != [] &&
    match log[|log| - 1]
    case Raised(channel) => channel == i || Owed(log[..|log| - 1], i)
    case Handled(channel) => channel != i && Owed(log[..|log| - 1], i)
  }

  /** The same, without recursion. */
  lemma {:induction false} OwedMeansLater(log: seq<Event>, i: nat)
    ensures Owed(log, i) <==>
            exists k :: 0 <= k < |log| && log[k] == Raised(i) &&
                        forall m :: k < m < |log| ==> log[m] != Handled(i)
  {
    if log == [] {
    } else {
      var n := |log| - 1;
      var prefix := log[..n];
      OwedMeansLater(prefix, i);
      if log[n] == Raised(i) {
        assert Owed(log, i);
      } else {
        if Owed(log, i) {
          var k :| 0 <= k < n && prefix[k] == Raised(i) && forall m :: k < m < n ==> prefix[m] != Handled(i);
          assert log[k] == Raised(i);
        }
        if k :| 0 <= k <= n && log[k] == Raised(i) && forall m :: k < m <= n ==> log[m] != Handled(i) {
          assert prefix[k] == Raised(i);
          assert forall m :: k < m < n ==> prefix[m] == log[m];
        }
      }
    }
  }

  predicate InFlight(s: State, i: nat) {
    s.pc.Cleared? && s.pc.i == i
  }

  ghost predicate Inv(s: State) {
    && |s.latched| == |s.enabled| == CHANNELS
    && (!s.pc.Idle? ==> s.pc.i <= CHANNELS)
    && (s.pc.Cleared? ==> s.pc.i < CHANNELS)
    && (forall i :: 0 <= i < CHANNELS ==> Accounted(s, i))
    && (forall i :: 0 <= i < CHANNELS ==> StillLatched(s, i))
  }

  /** Nothing invented, nothing lost, on channel i. */
  ghost predicate Accounted(s: State, i: nat)
    requires i < |s.latched|
  {
    && Calls(s.log, i) + (if s.latched[i] then 1 else 0) + (if InFlight(s, i) then 1 else 0) <= Raises(s.log, i)
    && (Owed(s.log, i) ==> s.latched[i] || InFlight(s, i))
  }

  /** A set bit of the snapshot that the scan has not reached is still latched and enabled. */
  ghost predicate StillLatched(s: State, i: nat)
    requires i < |s.latched| && i < |s.enabled|
  {
    && (s.pc.Scanning? && s.pc.i <= i && BitSet(s.pc.pending, i) ==> s.latched[i] && s.enabled[i])
    && (s.pc.Cleared? && s.pc.i < i && BitSet(s.pc.pending, i) ==> s.latched[i] && s.enabled[i])
  }

  ghost predicate Init(s: State) {
    && |s.latched| == |s.enabled| == CHANNELS
    && (forall i :: 0 <= i < CHANNELS ==> !s.latched[i])
    && s.pc == Idle && s.log == []
  }

  lemma StepKeepsInv(s: State, e: Step)
    requires Inv(s) && Enabled(s, e)
    ensures Inv(Apply(s, e))
  {
    var r := Apply(s, e);
    assert e.Raise? || e.Call? ==> r.log[..|r.log| - 1] == s.log;
    forall i | 0 <= i < CHANNELS ensures Accounted(r, i) && StillLatched(r, i) {
      assert Accounted(s, i) && StillLatched(s, i);
      if e.Enter? {
        PendingBits(s, i);
      }
    }
  }

  ghost predicate IsRun(states: seq<State>, steps: seq<Step>) {
    && |states| == |steps| + 1
    && Init(states[0])
    && Follows(states, steps)
  }

  ghost predicate Follows(states: seq<State>, steps: seq<Step>) {
    && |states| == |steps| + 1
    && (forall k :: 0 <= k < |steps| ==>
          Enabled(states[k], steps[k]) && states[k + 1] == Apply(states[k], steps[k]))
  }

  lemma {:induction false} InvHolds(states: seq<State>, steps: seq<Step>, k: nat)
    requires IsRun(states, steps) && k < |states|
    ensures Inv(states[k])
  {
    if k > 0 {
      InvHolds(states, steps, k - 1);
      StepKeepsInv(states[k - 1], steps[k - 1]);
    } else {
      assert forall i :: 0 <= i < CHANNELS ==> Accounted(states[0], i) && StillLatched(states[0], i);
    }
  }

  /**
   No event is lost or invented, in any state of any run: a raise with no later client call is
   still latched or between its clear and its call, and there are never more calls than raises.
   */
  lemma Lossless(states: seq<State>, steps: seq<Step>, k: nat, i: nat)
    requires IsRun(states, steps) && k < |states| && i < 8
    ensures |states[k].latched| == 8
    ensures (exists a :: 0 <= a < |states[k].log| && states[k].log[a] == Raised(i) &&
                         forall m :: a < m < |states[k].log| ==> states[k].log[m] != Handled(i))
            ==> states[k].latched[i] || InFlight(states[k], i)
    ensures Calls(states[k].log, i) <= Raises(states[k].log, i)
  {
    InvHolds(states, steps, k);
    assert Accounted(states[k], i);
    OwedMeansLater(states[k].log, i);
  }

  // ---------------------------------------------------------------- one activation

  /** The set bits of w below n, in ascending order. */
  function SetBits(w: nat, n: nat): (r: seq<nat>) {
    if n == 0 then [] else SetBits(w, n - 1) + if BitSet(w, n - 1) then [n - 1] else []
  }

  /** The channels of the client calls in a log, in order. */
  function CallsIn(log: seq<Event>): (r: seq<nat>) {
    if log == [] then []
    else CallsIn(log[..|log| - 1]) + match log[|log| - 1] case Handled(i) => [i] case Raised(_) => []
  }

  /** One more event at the end of a log, counted from position n. */
  lemma CallsInSuffix(log: seq<Event>, e: Event, n: nat)
    requires n <= |log|
    ensures CallsIn((log + [e])[n..])
            == CallsIn(log[n..]) + match e case Handled(i) => [i] case Raised(_) => []
  {
    var s := log[n..];
    assert (log + [e])[n..] == s + [e];
    assert (s + [e])[..|s|] == s;
  }

  /** The handler is working on the snapshot w, with its calls since position n of the log as they should be. */
  ghost predicate Working(s: State, w: nat, n: nat) {
    && (s.pc.Scanning? || s.pc.Cleared?) && s.pc.pending == w
    && n <= |s.log| && CallsIn(s.log[n..]) == SetBits(w, s.pc.i)
    && (s.pc.Cleared? ==> BitSet(w, s.pc.i))
  }

  lemma WorkingStays(s: State, e: Step, w: nat, n: nat)
    requires Working(s, w, n) && Enabled(s, e) && e != Exit
    ensures Working(Apply(s, e), w, n)
  {
    hide CallsIn, BitSet;
    var r := Apply(s, e);
    if e.Raise? || e.Call? {
      CallsInSuffix(s.log, r.log[|s.log|], n);
    }
    if !e.Raise? {
      assert SetBits(w, s.pc.i + 1) == SetBits(w, s.pc.i) + if BitSet(w, s.pc.i) then [s.pc.i] else [];
    }
  }

  lemma {:induction false} ActivationSoFar(states: seq<State>, steps: seq<Step>, a: nat, k: nat)
    requires Follows(states, steps) && a < k < |states|
    requires steps[a] == Enter && forall m :: a < m < k ==> steps[m] != Exit
    ensures Working(states[k], Pending(states[a]), |states[a].log|)
    decreases k
  {
    hide SetBits, CallsIn, BitSet, Pending;
    var n := |states[a].log|;
    if k == a + 1 {
      assert states[k].log[n..] == [];
      NothingYet(Pending(states[a]));
    } else {
      hide Working, Enabled, Apply;
      ActivationSoFar(states, steps, a, k - 1);
      WorkingStays(states[k - 1], steps[k - 1], Pending(states[a]), n);
    }
  }

  lemma NothingYet(w: nat)
    ensures CallsIn([]) == SetBits(w, 0) == []
  {
  }

  lemma {:induction false} SetBitsAscend(w: nat, n: nat)
    ensures forall k :: 0 <= k < |SetBits(w, n)| ==> SetBits(w, n)[k] < n && BitSet(w, SetBits(w, n)[k])
    ensures forall j, k :: 0 <= j < k < |SetBits(w, n)| ==> SetBits(w, n)[j] < SetBits(w, n)[k]
    ensures forall i: nat :: i < n && BitSet(w, i) ==> i in SetBits(w, n)
  {
    if n == 0 {
    } else {
      SetBitsAscend(w, n - 1);
    }
  }

  /**
   One activation of the interrupt handler calls the client for exactly the channels latched and
   enabled at its start, once each and in ascending order, whatever is raised meanwhile.
   */
  lemma ActivationIsExact(states: seq<State>, steps: seq<Step>, a: nat, b: nat)
    requires Follows(states, steps) && a < b < |steps|
    requires steps[a] == Enter && steps[b] == Exit && forall m :: a < m < b ==> steps[m] != Exit
    ensures |states[a].log| <= |states[b].log|
    ensures var calls := CallsIn(states[b].log[|states[a].log|..]);
            && (forall j, k :: 0 <= j < k < |calls| ==> calls[j] < calls[k])
            && (forall i: nat :: i in calls <==> i < 8 && states[a].latched[i] && states[a].enabled[i])
  {
    ActivationSoFar(states, steps, a, b);
    var w := Pending(states[a]);
    SetBitsAscend(w, CHANNELS);
    forall i: nat | i < CHANNELS ensures BitSet(w, i) <==> states[a].latched[i] && states[a].enabled[i] {
      PendingBits(states[a], i);
    }
  }

  /** When the handler is idle and nothing is pending, every raise on an enabled channel was served. */
  lemma QuietMeansServed(states: seq<State>, steps: seq<Step>, k: nat, i: nat, a: nat)
    requires IsRun(states, steps) && k < |states| && i < 8
    requires states[k].pc.Idle? && |states[k].latched| == |states[k].enabled| == 8
    requires states[k].enabled[i] && Pending(states[k]) == 0
    requires a < |states[k].log| && states[k].log[a] == Raised(i)
    ensures exists m :: a < m < |states[k].log| && states[k].log[m] == Handled(i)
  {
    PendingBits(states[k], i);
    Lossless(states, steps, k, i);
  }

  // ---------------------------------------------------------------- the code

  /** A chain of steps from s0 to s: one activation of the handler that has not ended. */
  ghost predicate Activation(states: seq<State>, steps: seq<Step>, s0: State, s: State) {
    && Follows(states, steps) && 1 <= |steps|
    && states[0] == s0 && states[|steps|] == s && steps[0] == Enter
    && (forall k :: 0 < k < |steps| ==> steps[k] != Enter && steps[k] != Exit)
  }

  /** One more step at its end. */
  lemma Extend(states: seq<State>, steps: seq<Step>, s0: State, s: State, e: Step)
    requires Activation(states, steps, s0, s) && Enabled(s, e)
    ensures Follows(states + [Apply(s, e)], steps + [e])
    ensures e != Enter && e != Exit ==> Activation(states + [Apply(s, e)], steps + [e], s0, Apply(s, e))
  {
  }

  /** What the modem raises at one point of interruption. */
  function RaiseSteps(channels: seq<nat>): (steps: seq<Step>) {
    if channels == [] then [] else RaiseSteps(channels[..|channels| - 1]) + [Raise(channels[|channels| - 1])]
  }

  /** All that is raised, once each and in order. */
  lemma {:induction false} RaisesAreInOrder(channels: seq<nat>)
    ensures |RaiseSteps(channels)| == |channels|
    ensures forall k :: 0 <= k < |channels| ==> RaiseSteps(channels)[k] == Raise(channels[k])
  {
    if channels == [] {
    } else {
      RaisesAreInOrder(channels[..|channels| - 1]);
    }
  }

  /** The steps at channel i, given the snapshot and what the modem raises at each point. */
  function ServeSteps(env: nat -> seq<nat>, pending: nat, i: nat): (steps: seq<Step>) {
    RaiseSteps(env(2 * i)) +
    if BitSet(pending, i) then [Clear] + RaiseSteps(env(2 * i + 1)) + [Call] else [Skip]
  }

  /** The steps of an activation up to channel n. */
  function HandlerSteps(env: nat -> seq<nat>, pending: nat, n: nat): (steps: seq<Step>) {
    if n == 0 then [Enter] else HandlerSteps(env, pending, n - 1) + ServeSteps(env, pending, n - 1)
  }

  lemma RaiseOneMore(channels: seq<nat>, n: nat)
    requires n < |channels|
    ensures RaiseSteps(channels[..n + 1]) == RaiseSteps(channels[..n]) + [Raise(channels[n])]
  {
    assert channels[..n + 1][..n] == channels[..n];
  }

  /** The event registers, the enable mask, and the client behind m_ipc_cb. */
  class Ipc {
    const latched: array<bool>
    const enabled: seq<bool>
    ghost var log: seq<Event>

    ghost predicate Valid()
      reads this
    {
      latched.Length == |enabled| == CHANNELS
    }

    ghost function Abs(pc: Pc): (s: State)
      reads this, latched
    {
      State(latched[..], enabled, pc, log)
    }

    constructor (enabled: seq<bool>)
      requires |enabled| == 8
      ensures Valid() && Init(Abs(Idle)) && this.enabled == enabled && fresh(latched)
    {
      latched := new bool[CHANNELS](_ => false);
      this.enabled := enabled;
      log := [];
    }

    /** The modem raises events while the handler stands at pc. */
    method RaiseAll(channels: seq<nat>, ghost pc: Pc, ghost s0: State, ghost states: seq<State>, ghost steps: seq<Step>)
      returns (ghost states': seq<State>, ghost steps': seq<Step>)
      requires Valid() && forall c :: c in channels ==> c < CHANNELS
      requires Activation(states, steps, s0, Abs(pc))
      modifies this`log, latched
      ensures Activation(states', steps', s0, Abs(pc)) && steps' == steps + RaiseSteps(channels)
    {
      states', steps' := states, steps;
      for n := 0 to |channels|
        invariant Activation(states', steps', s0, Abs(pc)) && steps' == steps + RaiseSteps(channels[..n])
      {
        RaiseOneMore(channels, n);
        var c := channels[n];
        assert c in channels;
        Extend(states', steps', s0, Abs(pc), Raise(c));
        latched[c] := true;
        log := log + [Raised(c)];
        states', steps' := states' + [Abs(pc)], steps' + [Raise(c)];
      }
      assert channels[..|channels|] == channels;
    }

    /** The loop body at channel i: clear the latch, then call the client. */
    method Serve(i: nat, pending: nat, env: nat -> seq<nat>,
                 ghost s0: State, ghost states: seq<State>, ghost steps: seq<Step>)
      returns (ghost states': seq<State>, ghost steps': seq<Step>)
      requires Valid() && i < CHANNELS && forall k, c :: c in env(k) ==> c < CHANNELS
      requires Activation(states, steps, s0, Abs(Scanning(pending, i)))
      modifies this`log, latched
      ensures Activation(states', steps', s0, Abs(Scanning(pending, i + 1)))
      ensures steps' == steps + ServeSteps(env, pending, i)
    {
      hide And, Pow2, Pending, RaiseSteps, Activation;
      states', steps' := RaiseAll(env(2 * i), Scanning(pending, i), s0, states, steps);
      if And(pending, Pow2(i)) != 0 {
        Extend(states', steps', s0, Abs(Scanning(pending, i)), Clear);
        latched[i] := false;
        states', steps' := states' + [Abs(Cleared(pending, i))], steps' + [Clear];
        states', steps' := RaiseAll(env(2 * i + 1), Cleared(pending, i), s0, states', steps');
        Extend(states', steps', s0, Abs(Cleared(pending, i)), Call);
        log := log + [Handled(i)];
        states', steps' := states' + [Abs(Scanning(pending, i + 1))], steps' + [Call];
      } else {
        Extend(states', steps', s0, Abs(Scanning(pending, i)), Skip);
        states', steps' := states' + [Abs(Scanning(pending, i + 1))], steps' + [Skip];
      }
    }

    /**
     nrfx_ipc_irq_handler, with env(k) the channels that the modem raises at the k-th point of
     interruption: before each test of a bit, between a clear and its call, and before the end.
     Its effect is a chain of steps of the machine: one activation, with each raise in its place.
     */
    method IrqHandler(env: nat -> seq<nat>) returns (ghost states: seq<State>, ghost steps: seq<Step>)
      requires Valid() && forall k, c :: c in env(k) ==> c < 8
      modifies this`log, latched
      ensures Follows(states, steps) && |steps| >= 2
      ensures states[0] == old(Abs(Idle)) && states[|steps|] == Abs(Idle)
      ensures steps[0] == Enter && steps[|steps| - 1] == Exit
      ensures forall k :: 0 < k < |steps| - 1 ==> steps[k] != Enter && steps[k] != Exit
      ensures steps == HandlerSteps(env, Pending(old(Abs(Idle))), 8) + RaiseSteps(env(16)) + [Exit]
    {
      hide BitSet, Word, RaiseSteps, ServeSteps;
      ghost var s0 := Abs(Idle);
      var pending := Pending(State(latched[..], enabled, Idle, []));
      states, steps := [s0, Abs(Scanning(pending, 0))], [Enter];
      assert pending == Pending(s0);
      for i := 0 to CHANNELS
        invariant Activation(states, steps, s0, Abs(Scanning(pending, i)))
        invariant steps == HandlerSteps(env, pending, i)
      {
        states, steps := Serve(i, pending, env, s0, states, steps);
      }
      states, steps := RaiseAll(env(2 * CHANNELS), Scanning(pending, CHANNELS), s0, states, steps);
      Extend(states, steps, s0, Abs(Scanning(pending, CHANNELS)), Exit);
      states, steps := states + [Abs(Idle)], steps + [Exit];
    }
  }
}
