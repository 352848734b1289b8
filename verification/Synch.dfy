/** The semaphore object of threads/synch.c, over the kernel's linked list.  Its operations are the steps of
    SemaphoreProtocol; `prio` gives the threads' priorities at the time of the call. */
module Synch {
  import opened KernelList
  import Protocol = SemaphoreProtocol
  import Order = SemaphoreOrder

  class Semaphore {
    var value: nat
    const waiters: List

    ghost predicate Valid()
      reads this, waiters, waiters.nodes
    {
      waiters.Valid()
    }

    ghost function State(): Protocol.Sema<Elem>
      requires Valid()
      reads this, waiters, waiters.nodes
    {
      Protocol.Sema(value, waiters.Elems())
    }

    /** sema_init. */
    constructor (value: nat)
      ensures Valid() && State() == Protocol.Sema(value, []) && fresh(waiters) && fresh(waiters.nodes)
    {
      this.value := value;
      waiters := new List();
    }

    /** One turn of the loop of sema_down by the thread `cur`, up to thread_block. */
    method Look(cur: Elem, prio: Elem -> int) returns (blocked: bool, ghost k: nat)
      requires Valid() && cur !in waiters.nodes
      modifies this, waiters, waiters.nodes, cur
      ensures Valid()
      ensures blocked <==> old(value) == 0
      ensures !blocked ==> value == old(value) - 1 && waiters.Elems() == old(waiters.Elems())
      ensures var w := old(waiters.Elems());
              blocked ==>
                && value == 0 && k <= |w| && waiters.Elems() == w[..k] + [cur] + w[k..]
                && (forall i | 0 <= i < k :: prio(w[i]) >= prio(cur)) && (k < |w| ==> prio(w[k]) < prio(cur))
      ensures State() == Protocol.Test<Elem>(old(State()), cur, prio)
      ensures waiters.nodes == old(waiters.nodes) + (if blocked then {cur} else {})
    {
      blocked := value == 0;
      k := Order.LookQueues<Elem>(State(), cur, prio);
      if blocked {
        waiters.InsertInOrder(cur, Protocol.Higher<Elem>(prio));
      } else {
        value := value - 1;
      }
    }

    method TryDown() returns (success: bool)
      requires Valid()
      modifies this
      ensures Valid()
      ensures success <==> old(value) > 0
      ensures State() == Protocol.TryDown(old(State()))
    {
      success := value > 0;
      if success {
        value := value - 1;
      }
    }

    /** sema_up; `woken` is the thread handed to thread_unblock. */
    method Up(prio: Elem -> int) returns (woken: Elem?)
      requires Valid()
      modifies this, waiters, waiters.nodes
      ensures Valid()
      ensures State() == Protocol.Up<Elem>(old(State()), prio)
      ensures woken == null <==> old(State().waiters) == []
      ensures woken != null ==> woken == Protocol.Chosen<Elem>(old(State()), prio)
      ensures waiters.nodes == old(waiters.nodes) - (if woken == null then {} else {woken})
    {
      woken := null;
      if waiters.head.next != waiters.tail {
        woken := PopHighest(prio);
      }
      value := value + 1;
    }

    method PopHighest(prio: Elem -> int) returns (front: Elem)
      requires Valid() && waiters.Elems() != []
      modifies waiters, waiters.nodes
      ensures Valid()
      ensures front == Protocol.Chosen<Elem>(old(State()), prio)
      ensures waiters.Elems() == Protocol.Up<Elem>(old(State()), prio).waiters
      ensures waiters.nodes == old(waiters.nodes) - {front}
    {
      Protocol.HigherIsStrictWeak<Elem>(waiters.Elems(), prio);
      Protocol.SortKeepsAll<Elem>(waiters.Elems(), prio);
      waiters.Sort(Protocol.Higher<Elem>(prio));
      front := waiters.PopFront();
    }
  }
}
