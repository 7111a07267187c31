/**
 The static pools behind nrf_modem_os_sem_init and nrf_modem_os_mutex_init in src/nrf_modem.c.
 A handle is a pointer: into the pool, or anywhere else. Slots are handed out in order and
 never given back; a handle that already points into the pool is initialised again in place.
 */
module HandlePool {

  datatype Handle = Slot(index: nat) | Foreign(address: nat)

  /** The KASSERT of the source stops the system. */
  datatype Outcome = Ready(handle: Handle) | Panic

  predicate InPool(max: nat, h: Handle) {
    h.Slot? && h.index < max
  }

  /** What an init call hands back when `used` slots are taken. */
  function OutcomeOf(max: nat, used: nat, arg: Handle): (r: Outcome) {
    if InPool(max, arg) then Ready(arg)
    else if used < max then Ready(Slot(used))
    else Panic
  }

  function UsedAfter(max: nat, used: nat, arg: Handle): (r: nat) {
    if !InPool(max, arg) && used < max then used + 1 else used
  }

  /** The static array and its counter; one instance holds the semaphores, another the mutexes. */
  class Pool {
    const max: nat
    var used: nat
    /** The value with which each object was last initialised. */
    const objects: array<nat>

    ghost predicate Valid()
      reads this
    {
      used <= max <= 255 && objects.Length == max
    }

    /** The counters are uint8_t, so a pool has at most 255 slots. */
    constructor (max: nat)
      requires max <= 255
      ensures Valid() && this.max == max && used == 0 && fresh(objects)
    {
      this.max := max;
      used := 0;
      objects := new nat[max];
    }

    /** nrf_modem_os_sem_init with the initial count; nrf_modem_os_mutex_init with 0. */
    method Init(arg: Handle, initial: nat) returns (r: Outcome)
      requires Valid()
      modifies this`used, objects
      ensures Valid() && r == OutcomeOf(max, old(used), arg) && used == UsedAfter(max, old(used), arg)
      ensures r.Ready? ==> InPool(max, r.handle)
                           && objects[..] == old(objects[..])[r.handle.index := initial]
      ensures r.Panic? ==> objects[..] == old(objects[..])
    {
      var i := 0;
      while i < max
        invariant 0 <= i <= max
        invariant forall k: nat :: k < i ==> arg != Slot(k)
      {
        if Slot(i) == arg {
          objects[i] := initial;
          return Ready(arg);
        }
        i := i + 1;
      }
      if used >= max {
        return Panic;
      }
      objects[used] := initial;
      r := Ready(Slot(used));
      used := used + 1;
    }
  }

  // ---------------------------------------------------------------- sequences of calls

  /** The counter after a sequence of calls on a fresh pool. */
  function Used(max: nat, args: seq<Handle>): (n: nat)
    ensures n <= max
  {
    if args == [] then 0
    else UsedAfter(max, Used(max, args[..|args| - 1]), args[|args| - 1])
  }

  /** The outcome of call k. */
  function OutcomeAt(max: nat, args: seq<Handle>, k: nat): (r: Outcome)
    requires k < |args|
  {
    OutcomeOf(max, Used(max, args[..k]), args[k])
  }

  /** The handle of call k was returned by an earlier call. */
  ghost predicate Returned(max: nat, args: seq<Handle>, k: nat)
    requires k < |args|
  {
    exists j :: 0 <= j < k && OutcomeAt(max, args, j) == Ready(args[k])
  }

  /** Call k is a first initialisation: it succeeds on a handle that no earlier call returned. */
  ghost predicate First(max: nat, args: seq<Handle>, k: nat)
    requires k < |args|
  {
    OutcomeAt(max, args, k).Ready? && !Returned(max, args, k)
  }

  /** Call k passes a pool pointer that was never handed out. */
  ghost predicate Stray(max: nat, args: seq<Handle>, k: nat)
    requires k < |args|
  {
    InPool(max, args[k]) && !Returned(max, args, k)
  }

  /** No two first initialisations share a slot. */
  ghost predicate NoSharing(max: nat, args: seq<Handle>) {
    forall j, k :: 0 <= j < k < |args| && First(max, args, j) && First(max, args, k) ==>
                     OutcomeAt(max, args, j) != OutcomeAt(max, args, k)
  }

  lemma {:induction false} UsedMonotonic(max: nat, args: seq<Handle>, j: nat, k: nat)
    requires j <= k <= |args|
    ensures Used(max, args[..j]) <= Used(max, args[..k])
    decreases k
  {
    if j < k {
      UsedMonotonic(max, args, j, k - 1);
      assert args[..k][..k - 1] == args[..k - 1];
    }
  }

  /** A fresh handle takes the slot at the counter and moves the counter past it. */
  lemma FreshTakesNext(max: nat, args: seq<Handle>, k: nat)
    requires k < |args| && !InPool(max, args[k]) && OutcomeAt(max, args, k).Ready?
    ensures OutcomeAt(max, args, k) == Ready(Slot(Used(max, args[..k])))
    ensures Used(max, args[..k + 1]) == Used(max, args[..k]) + 1
  {
    assert args[..k + 1][..k] == args[..k];
  }

  /** Every slot below the counter was handed out to a fresh handle. */
  lemma {:induction false} WhoTook(max: nat, args: seq<Handle>, n: nat, i: nat) returns (k: nat)
    requires n <= |args| && i < Used(max, args[..n])
    ensures k < n && !InPool(max, args[k]) && OutcomeAt(max, args, k) == Ready(Slot(i))
    decreases n
  {
    assert args[..n][..n - 1] == args[..n - 1];
    if i < Used(max, args[..n - 1]) {
      k := WhoTook(max, args, n - 1, i);
    } else {
      k := n - 1;
    }
  }

  /**
   When slots are shared: first initialisations share a slot if and only if some call passed a
   pool pointer that was never handed out and that lies below the final counter.
   */
  lemma SharingIsStray(max: nat, args: seq<Handle>)
    ensures NoSharing(max, args)
            <==> forall k :: 0 <= k < |args| && Stray(max, args, k) ==> Used(max, args) <= args[k].index
  {
    if NoSharing(max, args) {
      forall k | 0 <= k < |args| && Stray(max, args, k)
        ensures Used(max, args) <= args[k].index
      {
        if args[k].index < Used(max, args) {
          StrayIsShared(max, args, k);
        }
      }
    }
    if forall k :: 0 <= k < |args| && Stray(max, args, k) ==> Used(max, args) <= args[k].index {
      forall j, k | 0 <= j < k < |args| && First(max, args, j) && First(max, args, k)
        ensures OutcomeAt(max, args, j) != OutcomeAt(max, args, k)
      {
        FirstsDiffer(max, args, j, k);
      }
    }
  }

  lemma StrayIsShared(max: nat, args: seq<Handle>, k: nat)
    requires k < |args| && Stray(max, args, k) && args[k].index < Used(max, args)
    ensures !NoSharing(max, args)
  {
    assert args[..|args|] == args;
    var j := WhoTook(max, args, |args|, args[k].index);
    FreshIsFirst(max, args, j);
    assert First(max, args, k) && OutcomeAt(max, args, k) == Ready(args[k]);
    assert OutcomeAt(max, args, k) == OutcomeAt(max, args, j);
  }

  /** Only pool pointers are ever returned, so a fresh handle was not. */
  lemma FreshIsFirst(max: nat, args: seq<Handle>, j: nat)
    requires j < |args| && !InPool(max, args[j])
    ensures !Returned(max, args, j)
  {
    forall i | 0 <= i < j && OutcomeAt(max, args, i).Ready?
      ensures InPool(max, OutcomeAt(max, args, i).handle)
    {
    }
  }

  lemma FirstsDiffer(max: nat, args: seq<Handle>, j: nat, k: nat)
    requires j < k < |args| && First(max, args, j) && First(max, args, k)
    requires forall i :: 0 <= i < |args| && Stray(max, args, i) ==> Used(max, args) <= args[i].index
    ensures OutcomeAt(max, args, j) != OutcomeAt(max, args, k)
  {
    assert args[..|args|] == args;
    if InPool(max, args[k]) {
      assert OutcomeAt(max, args, k) == Ready(args[k]);
    } else {
      FreshTakesNext(max, args, k);
      UsedMonotonic(max, args, k + 1, |args|);
      if InPool(max, args[j]) {
        assert Stray(max, args, j);
      } else {
        FreshTakesNext(max, args, j);
        UsedMonotonic(max, args, j + 1, k);
      }
    }
  }

  /**
   For clients that pass only foreign handles or handles they were given: first initialisations
   get distinct slots, a second initialisation keeps its handle and the counter, and the system
   stops exactly when a new handle finds the pool full.
   */
  lemma ProperClients(max: nat, args: seq<Handle>)
    requires forall k :: 0 <= k < |args| ==> !InPool(max, args[k]) || Returned(max, args, k)
    ensures NoSharing(max, args)
    ensures forall k :: 0 <= k < |args| && Returned(max, args, k) ==>
              OutcomeAt(max, args, k) == Ready(args[k]) && Used(max, args[..k + 1]) == Used(max, args[..k])
    ensures forall k :: 0 <= k < |args| ==>
              (OutcomeAt(max, args, k).Panic? <==> !Returned(max, args, k) && Used(max, args[..k]) == max)
  {
    SharingIsStray(max, args);
    forall k | 0 <= k < |args| && Returned(max, args, k)
      ensures InPool(max, args[k]) && Used(max, args[..k + 1]) == Used(max, args[..k])
    {
      if !InPool(max, args[k]) {
        FreshIsFirst(max, args, k);
      }
      assert args[..k + 1][..k] == args[..k];
    }
  }

  /** A pool pointer passed in before it is handed out is handed out again later. */
  lemma StrayPointerIsShared()
    ensures var args := [Slot(0), Foreign(7)];
            OutcomeAt(2, args, 0) == OutcomeAt(2, args, 1) && !NoSharing(2, args)
  {
    var args := [Slot(0), Foreign(7)];
    assert args[..1] == [Slot(0)] && args[..1][..0] == [];
    assert Used(2, args[..1]) == 0;
    assert First(2, args, 0);
    FreshIsFirst(2, args, 1);
    assert First(2, args, 1);
  }
}
