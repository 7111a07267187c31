/**
 The list of sleeping threads in src/nrf_modem.c on the heap: a circular, doubly linked list
 through a sentinel, and the two walks over it. The list node is the first member of the
 waiter, so CONTAINER_OF is the identity on references.
 */
module WaiterRing {
  import opened SleepNotify

  /** struct sleeping_thread; the sentinel uses only its two links. */
  class Entry {
    var next: Entry?
    var prev: Entry?
    var sem: nat
    var context: nat

    /** memset and mdx_sem_init(&td.sem, 0) */
    constructor (context: nat)
      ensures next == null && prev == null && sem == 0 && this.context == context
    {
      next, prev := null, null;
      sem := 0;
      this.context := context;
    }
  }

  /** The entry and its successor point at each other. */
  ghost predicate Linked(a: Entry, b: Entry)
    reads a, b
  {
    a.next == b && b.prev == a
  }

  class Ring {
    const head: Entry
    ghost var waiters: seq<Entry>

    /** Once around: the sentinel, the waiters, the sentinel again. */
    ghost function Cycle(): (c: seq<Entry>)
      reads this
      ensures |c| == |waiters| + 2
      ensures forall e :: e in c ==> e == head || e in waiters
    {
      [head] + waiters + [head]
    }

    ghost predicate Valid()
      reads this, head, waiters
    {
      && head !in waiters
      && Distinct(waiters)
      && (forall i :: 0 <= i <= |waiters| ==> Linked(Cycle()[i], Cycle()[i + 1]))
    }

    /** Up to the return to the sentinel, no entry occurs twice on the way. */
    lemma CycleIsSimple(ws: seq<Entry>, c: seq<Entry>, i: nat, j: nat)
      requires head !in ws && Distinct(ws) && c == [head] + ws + [head]
      requires i < j <= |ws|
      ensures c[i] != c[j] && c[i + 1] != c[j + 1]
    {
    }

    /** list_init */
    constructor ()
      ensures Valid() && fresh(head) && waiters == []
    {
      head := new Entry(0);
      waiters := [];
      new;
      head.next := head;
      head.prev := head;
    }

    /** list_append */
    method Append(td: Entry)
      requires Valid() && td != head && td !in waiters
      modifies this, head, waiters, td
      ensures Valid() && waiters == old(waiters) + [td]
      ensures forall e :: e in waiters ==> e.sem == old(e.sem) && e.context == old(e.context)
    {
      ghost var n := |waiters|;
      ghost var c := Cycle();
      assert Linked(c[n], c[n + 1]);
      var last := head.prev;
      td.next := head;
      td.prev := last;
      last.next := td;
      head.prev := td;
      waiters := waiters + [td];
      forall i | 0 <= i <= |waiters| ensures Linked(Cycle()[i], Cycle()[i + 1]) {
        if i < n {
          assert Cycle()[i] == c[i] && Cycle()[i + 1] == c[i + 1];
          assert old(Linked(c[i], c[i + 1]));
        }
      }
    }

    /** Closing the gap at position k of the old list gives a valid list again. */
    twostate lemma GapIsClosed(k: nat)
      requires old(Valid()) && k < |old(waiters)|
      requires waiters == old(waiters)[..k] + old(waiters)[k + 1..]
      requires var c := old(Cycle()); c[k].next == c[k + 2] && c[k + 2].prev == c[k]
      requires var c := old(Cycle());
        forall j :: 0 <= j <= |old(waiters)| && c[j] != c[k] ==> c[j].next == old(c[j].next)
      requires var c := old(Cycle());
        forall j :: 0 < j <= |old(waiters)| + 1 && c[j] != c[k + 2] ==> c[j].prev == old(c[j].prev)
      ensures Valid()
    {
      var c := old(Cycle());
      assert Cycle() == c[..k + 1] + c[k + 2..];
      forall i | 0 <= i <= |waiters| ensures Linked(Cycle()[i], Cycle()[i + 1]) {
        var j := if i < k then i else i + 1;
        if i != k {
          CycleIsSimple(old(waiters), c, if i < k then i else k, if i < k then k else j);
          CycleIsSimple(old(waiters), c, if i < k then i else k + 1, if i < k then k + 1 else j);
          assert Cycle()[i] == c[j] && Cycle()[i + 1] == c[j + 1];
          assert old(Linked(c[j], c[j + 1]));
        }
      }
    }

    /** list_remove, which is not given the head */
    method Remove(td: Entry)
      requires Valid() && td in waiters
      modifies this, head, waiters
      ensures Valid() && waiters == Without(old(waiters), td)
      ensures forall e :: e in old(waiters) ==> e.sem == old(e.sem) && e.context == old(e.context)
    {
      hide Without;
      ghost var k :| 0 <= k < |waiters| && waiters[k] == td;
      ghost var c := Cycle();
      assert c[k + 1] == td && Linked(c[k], c[k + 1]) && Linked(c[k + 1], c[k + 2]);
      td.prev.next := td.next;
      td.next.prev := td.prev;
      waiters := waiters[..k] + waiters[k + 1..];
      WithoutIsSplice(old(waiters), k);
      GapIsClosed(k);
    }

    /** td_first */
    method First() returns (td: Entry?)
      requires Valid()
      ensures td == if waiters == [] then null else waiters[0]
    {
      assert Linked(Cycle()[0], Cycle()[1]);
      if head.next == head {
        return null;
      }
      td := head.next;
    }

    /** td_next, at position k of the list */
    method Next(td0: Entry, ghost k: nat) returns (td: Entry?)
      requires Valid() && k < |waiters| && td0 == waiters[k]
      ensures td == if k + 1 == |waiters| then null else waiters[k + 1]
    {
      assert Linked(Cycle()[k + 1], Cycle()[k + 2]);
      if td0.next == head {
        return null;
      }
      td := td0.next;
    }

    /**
     nrf_modem_os_event_notify: on a list of any length the walk ends, visits the waiters in
     append order, and adds one to the semaphores that match, and to no other.
     */
    method EventNotify(context: nat) returns (ghost visited: seq<Entry>)
      requires Valid()
      modifies waiters
      ensures Valid() && visited == waiters
      ensures forall e :: e in waiters ==>
                && e.next == old(e.next) && e.prev == old(e.prev) && e.context == old(e.context)
                && e.sem == old(e.sem) + if e.context == context || context == 0 then 1 else 0
    {
      visited := [];
      var td := First();
      while td != null
        invariant |visited| <= |waiters| && visited == waiters[..|visited|]
        invariant td == if |visited| == |waiters| then null else waiters[|visited|]
        invariant forall e :: e in waiters ==>
                    e.next == old(e.next) && e.prev == old(e.prev) && e.context == old(e.context)
        invariant forall i :: 0 <= i < |waiters| ==>
                    waiters[i].sem == old(waiters[i].sem) +
                    if i < |visited| && (waiters[i].context == context || context == 0) then 1 else 0
        decreases |waiters| - |visited|
      {
        if td.context == context || context == 0 {
          td.sem := td.sem + 1;
        }
        ghost var k := |visited|;
        visited := visited + [td];
        assert Valid() by { StillValid(); }
        td := Next(td, k);
      }
      StillValid();
    }

    /** nrf_modem_os_shutdown: the same walk, with no test. */
    method Shutdown() returns (ghost visited: seq<Entry>)
      requires Valid()
      modifies waiters
      ensures Valid() && visited == waiters
      ensures forall e :: e in waiters ==>
                && e.next == old(e.next) && e.prev == old(e.prev) && e.context == old(e.context)
                && e.sem == old(e.sem) + 1
    {
      visited := [];
      var td := First();
      while td != null
        invariant |visited| <= |waiters| && visited == waiters[..|visited|]
        invariant td == if |visited| == |waiters| then null else waiters[|visited|]
        invariant forall e :: e in waiters ==>
                    e.next == old(e.next) && e.prev == old(e.prev) && e.context == old(e.context)
        invariant forall i :: 0 <= i < |waiters| ==>
                    waiters[i].sem == old(waiters[i].sem) + if i < |visited| then 1 else 0
        decreases |waiters| - |visited|
      {
        td.sem := td.sem + 1;
        ghost var k := |visited|;
        visited := visited + [td];
        assert Valid() by { StillValid(); }
        td := Next(td, k);
      }
      StillValid();
    }

    /** Validity depends on the links only. */
    twostate lemma StillValid()
      requires old(Valid()) && waiters == old(waiters)
      requires head.next == old(head.next) && head.prev == old(head.prev)
      requires forall e :: e in waiters ==> e.next == old(e.next) && e.prev == old(e.prev)
      ensures Valid()
    {
      forall i | 0 <= i <= |waiters| ensures Linked(Cycle()[i], Cycle()[i + 1]) {
        assert old(Cycle()) == Cycle();
        assert old(Linked(Cycle()[i], Cycle()[i + 1]));
      }
    }
  }

  lemma {:induction false} WithoutIsSplice<T>(s: seq<T>, k: nat)
    requires k < |s| && s[k] !in s[..k]
    ensures Without(s, s[k]) == s[..k] + s[k + 1..]
  {
    if k > 0 {
      var x := s[k];
      assert s[..k][0] == s[0] && s[0] != x;
      assert s[1..][..k - 1] == s[..k][1..];
      WithoutIsSplice(s[1..], k - 1);
      assert s[..k] + s[k + 1..] == [s[0]] + (s[1..][..k - 1] + s[1..][k..]);
    } else {
      assert s[..0] + s[1..] == s[1..];
    }
  }
}
