/**
 The lock objects themselves, in the source's shape: each method is run by one thread that never
 has to wait, and is shown to be exactly that thread's stretch of the protocol.
 */
module RWLocks {
  import opened RWLockProtocol

  /** What `k` consecutive steps of one thread do to it and to the shared variables. */
  ghost function Alone(t: Thread, l: Locks, k: nat): (Thread, Locks)
    decreases k
  {
    if k == 0 || !CanOperate(t, l) then (t, l)
    else Alone(Advance(t, l), Effect(Instruction(t), l), k - 1)
  }

  lemma ReaderArrivesAlone(plan: seq<Session>, l: Locks, k: nat)
    requires !l.readersQueue && !l.noReaders
    ensures Alone(Thread(IDLE, [Read] + plan), l, k + 2)
            == Alone(Thread(2, plan), l.(readersQueue := true, noReaders := true), k)
  {
    assert ([Read] + plan)[1..] == plan;
  }

  /** Through the read switch, the first reader taking no_writers as well. */
  lemma ReaderSwitchesAlone(plan: seq<Session>, l: Locks)
    requires !l.readMutex && (l.readCounter == 0 ==> !l.noWriters)
    ensures Alone(Thread(2, plan), l, if l.readCounter == 0 then 7 else 6)
            == Alone(Thread(6, plan), l.(readMutex := true, readCounter := l.readCounter + 1,
                                         noWriters := l.readCounter == 0 || l.noWriters), 3)
  {
    if l.readCounter == 0 {
      FirstReaderSwitchesAlone(plan, l);
    } else {
      LaterReaderSwitchesAlone(plan, l);
    }
  }

  lemma FirstReaderSwitchesAlone(plan: seq<Session>, l: Locks)
    requires !l.readMutex && l.readCounter == 0 && !l.noWriters
    ensures Alone(Thread(2, plan), l, 7)
            == Alone(Thread(6, plan), l.(readMutex := true, readCounter := 1, noWriters := true), 3)
  {
  }

  lemma LaterReaderSwitchesAlone(plan: seq<Session>, l: Locks)
    requires !l.readMutex && l.readCounter != 0
    ensures Alone(Thread(2, plan), l, 6)
            == Alone(Thread(6, plan), l.(readMutex := true, readCounter := l.readCounter + 1), 3)
  {
    ReaderTakesMutexAlone(plan, l, 5);
    ReaderCountsAlone(plan, l.(readMutex := true), 4);
  }

  lemma ReaderTakesMutexAlone(plan: seq<Session>, l: Locks, k: nat)
    requires !l.readMutex
    ensures Alone(Thread(2, plan), l, k + 1) == Alone(Thread(3, plan), l.(readMutex := true), k)
  {
  }

  lemma ReaderCountsAlone(plan: seq<Session>, l: Locks, k: nat)
    ensures Alone(Thread(3, plan), l, k + 1) == Alone(Thread(4, plan), l.(readCounter := l.readCounter + 1), k)
  {
  }

  lemma ReaderEntersAlone(plan: seq<Session>, l: Locks)
    ensures Alone(Thread(6, plan), l, 3)
            == (Thread(READING, plan), l.(readersQueue := false, noReaders := false, readMutex := false))
  {
  }

  class Lock {
    var taken: bool

    constructor ()
      ensures !taken
    {
      taken := false;
    }

    method Acquire()
      requires !taken
      modifies this
      ensures taken
    {
      taken := true;
    }

    method Release()
      requires taken
      modifies this
      ensures !taken
    {
      taken := false;
    }
  }

  class LightSwitch {
    var counter: int
    const mutex: Lock

    constructor ()
      ensures counter == 0 && !mutex.taken && fresh(mutex)
    {
      counter := 0;
      mutex := new Lock();
    }

    /** The first thread in turns the switch on. */
    method Acquire(lock: Lock)
      requires lock != mutex && !mutex.taken && (counter == 0 ==> !lock.taken)
      modifies this, mutex, lock
      ensures counter == old(counter) + 1 && !mutex.taken
      ensures lock.taken == (old(counter) == 0 || old(lock.taken))
    {
      mutex.Acquire();
      counter := counter + 1;
      if counter == 1 {
        lock.Acquire();
      }
      mutex.Release();
    }

    /** The last thread out turns it off. */
    method Release(lock: Lock)
      requires lock != mutex && !mutex.taken && (counter == 1 ==> lock.taken)
      modifies this, mutex, lock
      ensures counter == old(counter) - 1 && !mutex.taken
      ensures lock.taken == (old(counter) != 1 && old(lock.taken))
    {
      mutex.Acquire();
      counter := counter - 1;
      if counter == 0 {
        lock.Release();
      }
      mutex.Release();
    }
  }

  class RWLock {
    const readSwitch: LightSwitch
    const writeSwitch: LightSwitch
    const noReaders: Lock
    const noWriters: Lock
    const readersQueue: Lock

    ghost const Repr: set<object>

    ghost predicate Valid()
      reads Repr
    {
      && Repr == {readSwitch as object, writeSwitch, readSwitch.mutex, writeSwitch.mutex,
                  noReaders, noWriters, readersQueue}
      && readSwitch != writeSwitch
      && readSwitch.mutex != writeSwitch.mutex
      && noReaders !in {noWriters, readersQueue, readSwitch.mutex, writeSwitch.mutex}
      && noWriters !in {readersQueue, readSwitch.mutex, writeSwitch.mutex}
      && readersQueue !in {readSwitch.mutex, writeSwitch.mutex}
    }

    /** The shared variables of the protocol. */
    ghost function View(): Locks
      requires Valid()
      reads Repr
    {
      Locks(readersQueue.taken, noReaders.taken, noWriters.taken, readSwitch.mutex.taken, writeSwitch.mutex.taken,
            readSwitch.counter, writeSwitch.counter)
    }

    constructor ()
      ensures Valid() && fresh(Repr) && View() == FREE
    {
      var r := new LightSwitch();
      var w := new LightSwitch();
      var nr := new Lock();
      noReaders := nr;
      var nw := new Lock();
      noWriters := nw;
      var queue := new Lock();
      readSwitch, writeSwitch, readersQueue := r, w, queue;
      Repr := {r as object, w, r.mutex, w.mutex, nr, nw, queue};
    }

    method ReaderAcquire(ghost plan: seq<Session>)
      requires Valid() && !readersQueue.taken && !noReaders.taken && !readSwitch.mutex.taken
      requires readSwitch.counter == 0 ==> !noWriters.taken
      modifies Repr
      ensures Valid()
      ensures var k := if old(readSwitch.counter) == 0 then 9 else 8;
              Alone(Thread(IDLE, [Read] + plan), old(View()), k) == (Thread(READING, plan), View())
    {
      readersQueue.Acquire();
      noReaders.Acquire();
      readSwitch.Acquire(noWriters);
      noReaders.Release();
      readersQueue.Release();
      ReaderArrivesAlone(plan, old(View()), if old(readSwitch.counter) == 0 then 7 else 6);
      ghost var l := old(View()).(readersQueue := true, noReaders := true);
      ReaderSwitchesAlone(plan, l);
      ReaderEntersAlone(plan, l.(readMutex := true, readCounter := l.readCounter + 1,
                                 noWriters := l.readCounter == 0 || l.noWriters));
    }

    method ReaderRelease(ghost plan: seq<Session>)
      requires Valid() && !readSwitch.mutex.taken
      requires readSwitch.counter == 1 ==> noWriters.taken
      modifies Repr
      ensures Valid()
      ensures var k := if old(readSwitch.counter) == 1 then 5 else 4;
              Alone(Thread(READING, plan), old(View()), k) == (Thread(IDLE, plan), View())
    {
      readSwitch.Release(noWriters);
    }

    method WriterAcquire(ghost plan: seq<Session>)
      requires Valid() && !writeSwitch.mutex.taken && !noWriters.taken
      requires writeSwitch.counter == 0 ==> !noReaders.taken
      modifies Repr
      ensures Valid()
      ensures var k := if old(writeSwitch.counter) == 0 then 6 else 5;
              Alone(Thread(IDLE, [Write] + plan), old(View()), k) == (Thread(WRITING, plan), View())
    {
      writeSwitch.Acquire(noReaders);
      noWriters.Acquire();
    }

    method WriterRelease(ghost plan: seq<Session>)
      requires Valid() && !writeSwitch.mutex.taken && noWriters.taken
      requires writeSwitch.counter == 1 ==> noReaders.taken
      modifies Repr
      ensures Valid()
      ensures var k := if old(writeSwitch.counter) == 1 then 6 else 5;
              Alone(Thread(WRITING, plan), old(View()), k) == (Thread(IDLE, plan), View())
    {
      noWriters.Release();
      writeSwitch.Release(noReaders);
    }
  }
}
