/** The kernel semaphore object over its linked wait queue; every method is one step of SemaphoreSpec. */
module Semaphore {
  import opened ByteSeq
  import opened Lists
  import opened Wrappers
  import SemaphoreSpec
  import Queue

  class KSemaphore {
    const waitQueue: Queue.KQueue
    var value: nat
    var asleep: set<nat>   // threads put to sleep here and not yet woken
    ghost var owner: Option<nat>

    /** IpcInitializeSemaphoreValue. */
    constructor (v: nat)
      requires v < TWO32
      ensures Valid() && Model() == SemaphoreSpec.Init(v) && Room() == 0x7000_0000
      ensures fresh(waitQueue)
    {
      waitQueue := new Queue.KQueue(0);
      value := v;
      asleep := {};
      owner := None;
    }

    ghost predicate Valid()
      reads this, waitQueue, waitQueue.nodes
    {
      && waitQueue.Valid() && value < TWO32
      && (forall t :: t in asleep <==> t in waitQueue.Contents())
      && Distinct(waitQueue.Contents())
    }

    /** How many more threads the wait queue takes. */
    ghost function Room(): int
      reads this, waitQueue
    {
      waitQueue.maxNum - waitQueue.curNum
    }

    ghost function Model(): SemaphoreSpec.Sem
      reads this, waitQueue
    {
      SemaphoreSpec.Sem(value, waitQueue.Contents(), owner)
    }

    /** IpcTryLockSemaphore: the loop body always returns. */
    method TryLock(ghost t: nat) returns (got: bool)
      requires Valid() && t !in asleep
      modifies this`value, this`owner
      ensures Valid() && Model() == SemaphoreSpec.Step(old(Model()), SemaphoreSpec.TryLock(t))
      ensures got <==> old(value) == 1
    {
      value := (value - 1) % TWO32;
      if value != 0 {
        value := (value + 1) % TWO32;
        return false;
      }
      owner := Some(t);
      return true;
    }

    /** IpcLockSemaphore by thread `t`: it gets through or goes to sleep behind all waiters. */
    method Lock(t: nat) returns (got: bool)
      requires Valid() && t !in asleep && 0 < Room()
      modifies this`value, this`owner, this`asleep, waitQueue, Elems(waitQueue.nodes)`next
      ensures Valid() && Model() == SemaphoreSpec.Step(old(Model()), SemaphoreSpec.Lock(t))
      ensures got <==> old(value) == 1
      ensures asleep == old(asleep) + if got then {} else {t}
    {
      value := (value - 1) % TWO32;
      if value != 0 {
        var _ := waitQueue.PushFront(t);
        asleep := asleep + {t};
        return false;
      }
      owner := Some(t);
      return true;
    }

    /** IpcUnlockSemaphore, by whomever it is called: the longest waiter is woken and owns the semaphore. */
    method Unlock(ghost t: nat) returns (woken: Option<nat>)
      requires Valid()
      modifies this`value, this`owner, this`asleep, waitQueue, Elems(waitQueue.nodes)`prev
      ensures Valid() && Model() == SemaphoreSpec.Step(old(Model()), SemaphoreSpec.Unlock(t))
      ensures asleep == old(asleep) - (if woken.Some? then {woken.value} else {})
      ensures woken.Some? <==> old(asleep) != {}
    {
      ghost var before := waitQueue.Contents();
      HeadAndTail(before);
      hide Distinct, Queue.Values, Queue.Linked;
      woken := waitQueue.PopBack();
      value := (value + 1) % TWO32;
      if woken.Some? {
        asleep := asleep - {woken.value};
        owner := Some(woken.value);
      } else {
        owner := None;
      }
    }

    lemma HeadAndTail(q: seq<nat>)
      requires Distinct(q)
      ensures q != [] ==> q[0] in q && Distinct(q[1..])
      ensures q != [] ==> forall t :: t in q[1..] <==> t in q && t != q[0]
    {
      if q != [] {
        assert q == [q[0]] + q[1..];
        forall t | t in q[1..]
          ensures t != q[0]
        {
          var i :| 0 <= i < |q[1..]| && q[1..][i] == t;
          assert q[i + 1] == t;
        }
      }
    }
  }
}
