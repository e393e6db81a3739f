/**
 The writer-priority read/write lock as a protocol of atomic steps.

 Every lock operation, counter update and counter test of the four entry points is one
 atomic step of one thread.  A thread is described by the operation it performs next and
 by the sessions (paired acquire/release calls) it still has to open; any number of
 threads may interleave in any way.
 */
module RWLockProtocol {

  datatype Session = Read | Write

  /** A program counter; see `Instruction` for the text it points into. */
  type PC = n: int | 0 <= n <= 24

  const IDLE: PC := 0
  const READING: PC := 9    // between reader_acquire and reader_release
  const WRITER: PC := 14    // first instruction of a writer after taking the mutex
  const WRITING: PC := 19   // between writer_acquire and writer_release

  datatype Thread = Thread(pc: PC, plan: seq<Session>)

  datatype LockName = ReadersQueue | NoReaders | NoWriters | ReadMutex | WriteMutex

  datatype SwitchName = ReadSwitch | WriteSwitch

  datatype Instr =
    | Take(lock: LockName)
    | Drop(lock: LockName)
    | Add(switch: SwitchName, amount: int)
    | Unless(switch: SwitchName, count: int, target: PC)  // jump unless the counter has this value

  /** The program text; a light switch's code is spelled out where it is called. */
  function Instruction(t: Thread): Instr {
    var pc := t.pc;
    // reader_acquire (a writer takes the mutex of the write switch instead)
    if pc == 0 then Take(if t.plan != [] && t.plan[0].Write? then WriteMutex else ReadersQueue)
    else if pc == 1 then Take(NoReaders)
    else if pc == 2 then Take(ReadMutex)
    else if pc == 3 then Add(ReadSwitch, 1)
    else if pc == 4 then Unless(ReadSwitch, 1, 6)
    else if pc == 5 then Take(NoWriters)
    else if pc == 6 then Drop(ReadMutex)
    else if pc == 7 then Drop(NoReaders)
    else if pc == 8 then Drop(ReadersQueue)
    // reader_release
    else if pc == 9 then Take(ReadMutex)
    else if pc == 10 then Add(ReadSwitch, -1)
    else if pc == 11 then Unless(ReadSwitch, 0, 13)
    else if pc == 12 then Drop(NoWriters)
    else if pc == 13 then Drop(ReadMutex)
    // writer_acquire
    else if pc == 14 then Add(WriteSwitch, 1)
    else if pc == 15 then Unless(WriteSwitch, 1, 17)
    else if pc == 16 then Take(NoReaders)
    else if pc == 17 then Drop(WriteMutex)
    else if pc == 18 then Take(NoWriters)
    // writer_release
    else if pc == 19 then Drop(NoWriters)
    else if pc == 20 then Take(WriteMutex)
    else if pc == 21 then Add(WriteSwitch, -1)
    else if pc == 22 then Unless(WriteSwitch, 0, 24)
    else if pc == 23 then Drop(NoReaders)
    else Drop(WriteMutex)
  }

  /** The shared variables: a plain lock is `true` while it is taken. */
  datatype Locks = Locks(
    readersQueue: bool, noReaders: bool, noWriters: bool, readMutex: bool, writeMutex: bool,
    readCounter: int, writeCounter: int)
  {
    predicate Taken(lock: LockName) {
      match lock
      case ReadersQueue => readersQueue
      case NoReaders => noReaders
      case NoWriters => noWriters
      case ReadMutex => readMutex
      case WriteMutex => writeMutex
    }

    function Set(lock: LockName, taken: bool): Locks {
      match lock
      case ReadersQueue => this.(readersQueue := taken)
      case NoReaders => this.(noReaders := taken)
      case NoWriters => this.(noWriters := taken)
      case ReadMutex => this.(readMutex := taken)
      case WriteMutex => this.(writeMutex := taken)
    }

    function Counter(switch: SwitchName): int {
      if switch.ReadSwitch? then readCounter else writeCounter
    }

    function Bump(switch: SwitchName, amount: int): Locks {
      if switch.ReadSwitch? then this.(readCounter := readCounter + amount)
      else this.(writeCounter := writeCounter + amount)
    }
  }

  datatype State = State(threads: seq<Thread>, locks: Locks)

  const FREE := Locks(false, false, false, false, false, 0, 0)

  ghost predicate Init(s: State) {
    && s.locks == FREE
    && forall i :: 0 <= i < |s.threads| ==> s.threads[i].pc == IDLE
  }

  predicate Done(t: Thread) { t.pc == IDLE && t.plan == [] }

  /** Only taking a lock can block. */
  predicate CanOperate(t: Thread, l: Locks) {
    && !Done(t)
    && (Instruction(t).Take? ==> !l.Taken(Instruction(t).lock))
  }

  function Advance(t: Thread, l: Locks): Thread {
    var instr := Instruction(t);
    if Done(t) then t
    else if t.pc == IDLE then Thread(if t.plan[0].Read? then 1 else WRITER, t.plan[1..])
    else if instr.Unless? && l.Counter(instr.switch) != instr.count then t.(pc := instr.target)
    else if t.pc == 13 || t.pc == 24 then t.(pc := IDLE)
    else t.(pc := t.pc + 1)
  }

  function Effect(instr: Instr, l: Locks): Locks {
    match instr
    case Take(lock) => l.Set(lock, true)
    case Drop(lock) => l.Set(lock, false)
    case Add(switch, amount) => l.Bump(switch, amount)
    case Unless(_, _, _) => l
  }

  predicate Enabled(s: State, i: nat)
    requires i < |s.threads|
  {
    CanOperate(s.threads[i], s.locks)
  }

  /** One atomic step of one thread. */
  function Step(s: State, i: nat): State
    requires i < |s.threads| && Enabled(s, i)
  {
    var t := s.threads[i];
    State(s.threads[i := Advance(t, s.locks)], Effect(Instruction(t), s.locks))
  }

  ghost predicate Next(s: State, s': State) {
    exists i: nat :: i < |s.threads| && Enabled(s, i) && s' == Step(s, i)
  }

  /** A run: consecutive states related by `Next`, from any first state. */
  ghost predicate IsRun(run: seq<State>) {
    && run != []
    && forall k :: 0 <= k < |run| - 1 ==> Next(run[k], run[k + 1])
  }

  ghost predicate IsExecution(run: seq<State>) {
    IsRun(run) && Init(run[0])
  }

  lemma RunNext(run: seq<State>, k: nat)
    requires IsRun(run) && 0 < k < |run|
    ensures Next(run[k - 1], run[k])
  {
    assert Next(run[k - 1], run[k - 1 + 1]);
  }

  // ----- counting threads -----

  function One(b: bool): nat { if b then 1 else 0 }

  /** How many threads are at each point of the program text. */
  type Census = n: seq<nat> | |n| == 25 witness seq(25, _ => 0)

  function At(ts: seq<Thread>, pc: PC): nat {
    if ts == [] then 0 else One(ts[0].pc == pc) + At(ts[1..], pc)
  }

  function Count(ts: seq<Thread>): Census {
    seq(25, pc requires 0 <= pc < 25 => At(ts, pc))
  }

  function Without(ts: seq<Thread>, i: nat): seq<Thread>
    requires i < |ts|
  {
    ts[..i] + ts[i + 1..]
  }

  function Plus(n: Census, pc: PC): Census { n[pc := n[pc] + 1] }

  lemma {:induction false} AtSplit(ts: seq<Thread>, i: nat, pc: PC)
    requires i < |ts|
    ensures At(ts, pc) == One(ts[i].pc == pc) + At(Without(ts, i), pc)
  {
    if i == 0 {
      assert Without(ts, 0) == ts[1..];
    } else {
      AtSplit(ts[1..], i - 1, pc);
      assert Without(ts, i)[1..] == Without(ts[1..], i - 1);
    }
  }

  /** One thread can be counted apart from all the others. */
  lemma CountSplit(ts: seq<Thread>, i: nat)
    requires i < |ts|
    ensures Count(ts) == Plus(Count(Without(ts, i)), ts[i].pc)
  {
    forall pc | 0 <= pc < 25 ensures Count(ts)[pc] == Plus(Count(Without(ts, i)), ts[i].pc)[pc] {
      AtSplit(ts, i, pc);
    }
  }

  // ----- the invariant -----

  function InQueue(n: Census): nat { n[1] + HasNoReaders(n) + n[8] }
  function HasNoReaders(n: Census): nat { n[2] + n[3] + n[4] + n[5] + n[6] + n[7] }
  function HasNoWriters(n: Census): nat { n[WRITING] }
  function InReadMutex(n: Census): nat { n[3] + n[4] + n[5] + n[6] + n[10] + n[11] + n[12] + n[13] }
  function InWriteMutex(n: Census): nat { n[14] + n[15] + n[16] + n[17] + n[21] + n[22] + n[23] + n[24] }

  /** Threads counted by a switch, and threads on whose behalf the switch is on. */
  function ReadCounted(n: Census): nat { n[4] + n[5] + n[6] + n[7] + n[8] + n[READING] + n[10] }
  function ReadOn(n: Census): nat { n[6] + n[7] + n[8] + n[READING] + n[10] + n[11] + n[12] }
  function WriteCounted(n: Census): nat { n[15] + n[16] + n[17] + n[18] + n[WRITING] + n[20] + n[21] }
  function WriteOn(n: Census): nat { n[17] + n[18] + n[WRITING] + n[20] + n[21] + n[22] + n[23] }

  /**
   Which lock is taken, and by whom.  `noReaders` and `noWriters` are held either by one thread
   or by a whole group through its switch, so whoever took one need not be who releases it.
   */
  predicate Balanced(n: Census, l: Locks) {
    && InQueue(n) == One(l.readersQueue)
    && InReadMutex(n) == One(l.readMutex)
    && InWriteMutex(n) == One(l.writeMutex)
    && ReadCounted(n) == l.readCounter
    && WriteCounted(n) == l.writeCounter
    && HasNoReaders(n) + One(WriteOn(n) > 0) == One(l.noReaders)
    && HasNoWriters(n) + One(ReadOn(n) > 0) == One(l.noWriters)
    // the first thread in turns its switch on, the last one out turns it off
    && (n[5] > 0 ==> l.readCounter == 1)
    && (n[12] > 0 ==> l.readCounter == 0)
    && (n[16] > 0 ==> l.writeCounter == 1)
    && (n[23] > 0 ==> l.writeCounter == 0)
  }

  predicate Inv(s: State) {
    Balanced(Count(s.threads), s.locks)
  }

  lemma {:induction false} AtIdle(ts: seq<Thread>, pc: PC)
    requires forall i :: 0 <= i < |ts| ==> ts[i].pc == IDLE
    ensures pc != IDLE ==> At(ts, pc) == 0
  {
    if ts != [] {
      AtIdle(ts[1..], pc);
    }
  }

  lemma InitInv(s: State)
    requires Init(s)
    ensures Inv(s)
  {
    forall pc | 0 < pc < 25 ensures Count(s.threads)[pc] == 0 {
      AtIdle(s.threads, pc);
    }
  }

  // The invariant at work on numbers alone: one thread operates, the others stand still.

  lemma ReaderQueues(t: Thread, others: Census, l: Locks)
    requires t.pc <= 2 && CanOperate(t, l) && Balanced(Plus(others, t.pc), l)
    ensures Balanced(Plus(others, Advance(t, l).pc), Effect(Instruction(t), l))
  {
    if t.pc == 0 {} else if t.pc == 1 {} else if t.pc == 2 {}
  }

  lemma ReaderIsCounted(t: Thread, others: Census, l: Locks)
    requires 3 <= t.pc <= 5 && CanOperate(t, l) && Balanced(Plus(others, t.pc), l)
    ensures Balanced(Plus(others, Advance(t, l).pc), Effect(Instruction(t), l))
  {
    if t.pc == 3 {} else if t.pc == 4 {} else if t.pc == 5 {}
  }

  lemma ReaderEnters(t: Thread, others: Census, l: Locks)
    requires 6 <= t.pc <= 9 && CanOperate(t, l) && Balanced(Plus(others, t.pc), l)
    ensures Balanced(Plus(others, Advance(t, l).pc), Effect(Instruction(t), l))
  {
    if t.pc == 6 {} else if t.pc == 7 {} else if t.pc == 8 {} else if t.pc == 9 {}
  }

  lemma ReaderUncounts(t: Thread, others: Census, l: Locks)
    requires 10 <= t.pc <= 11 && CanOperate(t, l) && Balanced(Plus(others, t.pc), l)
    ensures Balanced(Plus(others, Advance(t, l).pc), Effect(Instruction(t), l))
  {
    if t.pc == 10 {} else if t.pc == 11 {}
  }

  lemma ReaderLeaves(t: Thread, others: Census, l: Locks)
    requires 12 <= t.pc <= 13 && CanOperate(t, l) && Balanced(Plus(others, t.pc), l)
    ensures Balanced(Plus(others, Advance(t, l).pc), Effect(Instruction(t), l))
  {
    if t.pc == 12 {} else if t.pc == 13 {}
  }

  lemma WriterIsCounted(t: Thread, others: Census, l: Locks)
    requires 14 <= t.pc <= 16 && CanOperate(t, l) && Balanced(Plus(others, t.pc), l)
    ensures Balanced(Plus(others, Advance(t, l).pc), Effect(Instruction(t), l))
  {
    if t.pc == 14 {} else if t.pc == 15 {} else if t.pc == 16 {}
  }

  lemma WriterEnters(t: Thread, others: Census, l: Locks)
    requires 17 <= t.pc <= 19 && CanOperate(t, l) && Balanced(Plus(others, t.pc), l)
    ensures Balanced(Plus(others, Advance(t, l).pc), Effect(Instruction(t), l))
  {
    if t.pc == 17 {} else if t.pc == 18 {} else if t.pc == 19 {}
  }

  lemma WriterUncounts(t: Thread, others: Census, l: Locks)
    requires 20 <= t.pc <= 21 && CanOperate(t, l) && Balanced(Plus(others, t.pc), l)
    ensures Balanced(Plus(others, Advance(t, l).pc), Effect(Instruction(t), l))
  {
    if t.pc == 20 {} else if t.pc == 21 {}
  }

  lemma WriterLeaves(t: Thread, others: Census, l: Locks)
    requires 22 <= t.pc && CanOperate(t, l) && Balanced(Plus(others, t.pc), l)
    ensures Balanced(Plus(others, Advance(t, l).pc), Effect(Instruction(t), l))
  {
    if t.pc == 22 {} else if t.pc == 23 {} else if t.pc == 24 {}
  }

  lemma StepInv(s: State, i: nat)
    requires Inv(s) && i < |s.threads| && Enabled(s, i)
    ensures Inv(Step(s, i))
  {
    CountSplit(s.threads, i);
    CountSplit(Step(s, i).threads, i);
    assert Without(Step(s, i).threads, i) == Without(s.threads, i);
    var t, others := s.threads[i], Count(Without(s.threads, i));
    if t.pc <= 2 { ReaderQueues(t, others, s.locks); }
    else if t.pc <= 5 { ReaderIsCounted(t, others, s.locks); }
    else if t.pc <= 9 { ReaderEnters(t, others, s.locks); }
    else if t.pc <= 11 { ReaderUncounts(t, others, s.locks); }
    else if t.pc <= 13 { ReaderLeaves(t, others, s.locks); }
    else if t.pc <= 16 { WriterIsCounted(t, others, s.locks); }
    else if t.pc <= 19 { WriterEnters(t, others, s.locks); }
    else if t.pc <= 21 { WriterUncounts(t, others, s.locks); }
    else { WriterLeaves(t, others, s.locks); }
  }

  lemma {:induction false} ExecutionInv(run: seq<State>, k: nat)
    requires IsExecution(run) && k < |run|
    ensures Inv(run[k])
  {
    if k == 0 {
      InitInv(run[0]);
    } else {
      ExecutionInv(run, k - 1);
      RunNext(run, k);
      var i: nat :| i < |run[k - 1].threads| && Enabled(run[k - 1], i) && run[k] == Step(run[k - 1], i);
      StepInv(run[k - 1], i);
    }
  }

  // ----- safety -----

  lemma CountPair(ts: seq<Thread>, i: nat, j: nat) returns (rest: Census)
    requires i < |ts| && j < |ts| && i != j
    ensures Count(ts) == Plus(Plus(rest, ts[j].pc), ts[i].pc)
  {
    CountSplit(ts, i);
    var j' := if j < i then j else j - 1;
    assert Without(ts, i)[j'] == ts[j];
    CountSplit(Without(ts, i), j');
    rest := Count(Without(Without(ts, i), j'));
  }

  /** The read switch is on on behalf of this thread: from taking or inheriting no_writers until handing it back. */
  predicate Admitted(t: Thread) { 6 <= t.pc <= 12 }

  lemma PlusReadOn(n: Census, pc: PC)
    ensures ReadOn(Plus(n, pc)) == ReadOn(n) + One(6 <= pc <= 12)
  {
  }

  lemma PlusInQueue(n: Census, pc: PC)
    ensures InQueue(Plus(n, pc)) == InQueue(n) + One(1 <= pc <= 8)
  {
  }

  /** A writer inside excludes every other writer, and every reader the read switch stands for. */
  lemma MutualExclusion(run: seq<State>, k: nat, i: nat, j: nat)
    requires IsExecution(run) && k < |run|
    requires i < |run[k].threads| && j < |run[k].threads| && i != j
    requires run[k].threads[i].pc == WRITING
    ensures run[k].threads[j].pc != WRITING && !Admitted(run[k].threads[j])
  {
    ExecutionInv(run, k);
    var ts := run[k].threads;
    var rest := CountPair(ts, i, j);
    PlusReadOn(Plus(rest, ts[j].pc), ts[i].pc);
    PlusReadOn(rest, ts[j].pc);
  }

  /** At most one reader at a time is between taking and releasing readers_queue. */
  lemma OneReaderQueues(run: seq<State>, k: nat, i: nat, j: nat)
    requires IsExecution(run) && k < |run|
    requires i < |run[k].threads| && j < |run[k].threads| && i != j
    requires 1 <= run[k].threads[i].pc <= 8
    ensures !(1 <= run[k].threads[j].pc <= 8)
  {
    ExecutionInv(run, k);
    var ts := run[k].threads;
    var rest := CountPair(ts, i, j);
    PlusInQueue(Plus(rest, ts[j].pc), ts[i].pc);
    PlusInQueue(rest, ts[j].pc);
  }

  lemma CountHere(ts: seq<Thread>, i: nat)
    requires i < |ts|
    ensures Count(ts)[ts[i].pc] > 0
  {
    CountSplit(ts, i);
  }

  /** No thread ever releases a lock that is not taken, which would raise an error. */
  lemma ReleasesAreOfTakenLocks(run: seq<State>, k: nat, i: nat)
    requires IsExecution(run) && k < |run| && i < |run[k].threads|
    ensures var instr := Instruction(run[k].threads[i]); instr.Drop? ==> run[k].locks.Taken(instr.lock)
  {
    ExecutionInv(run, k);
    CountHere(run[k].threads, i);
  }

  // ----- progress -----

  lemma {:induction false} Somebody(ts: seq<Thread>, pc: PC) returns (i: nat)
    requires At(ts, pc) > 0
    ensures i < |ts| && ts[i].pc == pc
  {
    if ts[0].pc == pc {
      i := 0;
    } else {
      i := Somebody(ts[1..], pc);
      i := i + 1;
    }
  }

  /** No thread at `pc` can take a step: `pc` must be a lock operation on a taken lock. */
  predicate Blocked(n: Census, l: Locks, pc: PC)
    requires pc != IDLE
  {
    n[pc] > 0 ==> !CanOperate(Thread(pc, []), l)
  }

  predicate TakesLock(pc: PC) { pc in {1, 2, 5, READING, 16, 18, 20} }

  lemma BlockedTakesLock(n: Census, l: Locks, pc: PC)
    requires pc != IDLE && Blocked(n, l, pc)
    ensures TakesLock(pc) || n[pc] == 0
  {
  }

  /** If every thread under way were blocked, nobody would be under way. */
  lemma BlockedMeansIdle(n: Census, l: Locks)
    requires Balanced(n, l) && forall pc: PC | pc != IDLE :: Blocked(n, l, pc)
    ensures forall pc: PC | pc != IDLE :: n[pc] == 0
  {
    forall pc: PC | pc != IDLE && !TakesLock(pc) ensures n[pc] == 0 { BlockedTakesLock(n, l, pc); }
    assert n[5] == 0 by { assert Blocked(n, l, 5); }
    assert n[2] == 0 && n[READING] == 0 by { assert Blocked(n, l, 2) && Blocked(n, l, READING); }
    assert n[18] == 0 by { assert Blocked(n, l, 18); }
    assert n[16] == 0 by { assert Blocked(n, l, 16); }
    assert n[20] == 0 by { assert Blocked(n, l, 20); }
    assert n[1] == 0 by { assert Blocked(n, l, 1); }
  }

  /** With no writer about, if only readers inside could move, no other reader would be under way. */
  lemma BlockedReadersAreInside(n: Census, l: Locks)
    requires Balanced(n, l) && forall pc: PC | 14 <= pc :: n[pc] == 0
    requires forall pc: PC | 1 <= pc <= 13 && pc != READING :: Blocked(n, l, pc)
    ensures forall pc: PC | 1 <= pc <= 13 && pc != READING :: n[pc] == 0
  {
    forall pc: PC | 1 <= pc <= 13 && !TakesLock(pc) ensures n[pc] == 0 { BlockedTakesLock(n, l, pc); }
    assert n[5] == 0 by { assert Blocked(n, l, 5); }
    assert n[2] == 0 by { assert Blocked(n, l, 2); }
    assert n[1] == 0 by { assert Blocked(n, l, 1); }
  }

  /** The threads at `pc` are blocked unless one of them may step. */
  lemma BlockedUnlessEnabled(s: State, pc: PC)
    requires pc != IDLE
    requires forall i :: 0 <= i < |s.threads| && s.threads[i].pc == pc ==> !Enabled(s, i)
    ensures Blocked(Count(s.threads), s.locks, pc)
  {
    if At(s.threads, pc) > 0 {
      var i := Somebody(s.threads, pc);
      assert !Enabled(s, i);
    }
  }

  /** The protocol never deadlocks: whenever a thread is under way, some thread under way may step. */
  lemma NoDeadlock(run: seq<State>, k: nat, i: nat)
    requires IsExecution(run) && k < |run| && i < |run[k].threads|
    requires run[k].threads[i].pc != IDLE
    ensures exists j :: 0 <= j < |run[k].threads| && run[k].threads[j].pc != IDLE && Enabled(run[k], j)
  {
    ExecutionInv(run, k);
    var s := run[k];
    if forall j :: 0 <= j < |s.threads| && s.threads[j].pc != IDLE ==> !Enabled(s, j) {
      forall pc: PC | pc != IDLE ensures Blocked(Count(s.threads), s.locks, pc) { BlockedUnlessEnabled(s, pc); }
      BlockedMeansIdle(Count(s.threads), s.locks);
      CountHere(s.threads, i);
    }
  }

  /** Why it never deadlocks: the reader that turns the read switch on finds no_writers free. */
  lemma FirstReaderNeverWaits(run: seq<State>, k: nat, i: nat)
    requires IsExecution(run) && k < |run| && i < |run[k].threads|
    requires run[k].threads[i].pc == 5
    ensures Enabled(run[k], i)
  {
    ExecutionInv(run, k);
    CountHere(run[k].threads, i);
  }

  /**
   Readers keep no reader waiting: if no writer is about and a reader is on its way in or out,
   then some reader that is not inside may step, so nobody needs a reader inside to leave.
   */
  lemma ReadersDoNotWaitForReaders(run: seq<State>, k: nat, i: nat)
    requires IsExecution(run) && k < |run| && i < |run[k].threads|
    requires forall j :: 0 <= j < |run[k].threads| ==> run[k].threads[j].pc <= 13
    requires run[k].threads[i].pc !in {IDLE, READING}
    ensures exists j :: 0 <= j < |run[k].threads| && run[k].threads[j].pc !in {IDLE, READING} && Enabled(run[k], j)
  {
    ExecutionInv(run, k);
    var s := run[k];
    if forall j :: 0 <= j < |s.threads| && s.threads[j].pc !in {IDLE, READING} ==> !Enabled(s, j) {
      forall pc: PC | 1 <= pc <= 13 && pc != READING ensures Blocked(Count(s.threads), s.locks, pc) {
        BlockedUnlessEnabled(s, pc);
      }
      forall pc: PC | 14 <= pc ensures At(s.threads, pc) == 0 {
        if At(s.threads, pc) > 0 { var j := Somebody(s.threads, pc); }
      }
      BlockedReadersAreInside(Count(s.threads), s.locks);
      CountHere(s.threads, i);
    }
  }

  // ----- termination -----

  /** More steps than a thread at `pc` still takes before it is idle again. */
  function StepsLeft(pc: PC): nat { if pc == IDLE then 0 else if pc <= 13 then 14 - pc else 25 - pc }

  function PlanLeft(plan: seq<Session>): nat {
    if plan == [] then 0 else (if plan[0].Read? then 14 else 12) + PlanLeft(plan[1..])
  }

  function Work(ts: seq<Thread>): nat {
    if ts == [] then 0 else StepsLeft(ts[0].pc) + PlanLeft(ts[0].plan) + Work(ts[1..])
  }

  lemma {:induction false} WorkUpdate(ts: seq<Thread>, i: nat, t: Thread)
    requires i < |ts|
    ensures Work(ts[i := t])
         == Work(ts) - StepsLeft(ts[i].pc) - PlanLeft(ts[i].plan) + StepsLeft(t.pc) + PlanLeft(t.plan)
  {
    if i == 0 {
      assert ts[i := t][1..] == ts[1..];
    } else {
      assert ts[i := t][1..] == ts[1..][i - 1 := t];
      WorkUpdate(ts[1..], i - 1, t);
    }
  }

  lemma OperatingIsProgress(t: Thread, l: Locks)
    requires CanOperate(t, l)
    ensures var t' := Advance(t, l); StepsLeft(t'.pc) + PlanLeft(t'.plan) < StepsLeft(t.pc) + PlanLeft(t.plan)
  {
  }

  lemma NextIsProgress(s: State, s': State)
    requires Next(s, s')
    ensures Work(s'.threads) < Work(s.threads)
  {
    var i: nat :| i < |s.threads| && Enabled(s, i) && s' == Step(s, i);
    OperatingIsProgress(s.threads[i], s.locks);
    WorkUpdate(s.threads, i, Advance(s.threads[i], s.locks));
  }

  /** A run is never longer than the work its first state has left. */
  lemma {:induction false} RunsAreBounded(run: seq<State>)
    requires IsRun(run)
    ensures |run| - 1 + Work(run[|run| - 1].threads) <= Work(run[0].threads)
  {
    if |run| > 1 {
      NextIsProgress(run[|run| - 2], run[|run| - 1]);
      RunsAreBounded(run[..|run| - 1]);
    }
  }

  /** A run that cannot be extended has finished every session and left every lock free. */
  lemma MaximalRunsFinish(run: seq<State>)
    requires IsExecution(run)
    requires var s := run[|run| - 1]; forall i :: 0 <= i < |s.threads| ==> !Enabled(s, i)
    ensures var s := run[|run| - 1]; s.locks == FREE && forall i :: 0 <= i < |s.threads| ==> Done(s.threads[i])
  {
    var s := run[|run| - 1];
    ExecutionInv(run, |run| - 1);
    forall i | 0 <= i < |s.threads| ensures s.threads[i].pc == IDLE {
      if s.threads[i].pc != IDLE {
        NoDeadlock(run, |run| - 1, i);
      }
    }
    forall pc: PC | pc != IDLE ensures Count(s.threads)[pc] == 0 {
      AtIdle(s.threads, pc);
    }
    forall i | 0 <= i < |s.threads| ensures Done(s.threads[i]) {
      assert !Enabled(s, i);
    }
  }

  // ----- writer priority -----

  /** A reader that has passed no_readers, up to and including its way out. */
  predicate Passed(t: Thread) { 2 <= t.pc <= 13 }

  /** The set of readers past no_readers gains no member from `s` to `s'`. */
  ghost predicate NobodyNew(s: State, s': State) {
    && |s'.threads| == |s.threads|
    && forall i :: 0 <= i < |s.threads| && Passed(s'.threads[i]) ==> Passed(s.threads[i])
  }

  predicate WritersHold(s: State) { WriteOn(Count(s.threads)) > 0 }

  lemma PlusWriteOn(n: Census, pc: PC)
    ensures WriteOn(Plus(n, pc)) == WriteOn(n) + One(17 <= pc <= 23)
  {
  }

  lemma NobodyPasses(t: Thread, l: Locks)
    requires CanOperate(t, l) && l.noReaders && Passed(Advance(t, l))
    ensures Passed(t)
  {
  }

  lemma LastStepOfWriter(t: Thread, l: Locks)
    requires CanOperate(t, l) && 17 <= t.pc <= 23 && !(17 <= Advance(t, l).pc <= 23)
    ensures Advance(t, l).pc == 24
  {
  }

  lemma WritersRemain(others: Census, l: Locks)
    requires Balanced(Plus(others, 24), l) && l.writeCounter > 0
    ensures WriteOn(others) > 0
  {
  }

  lemma WritersKeepHolding(s: State, i: nat)
    requires Inv(s) && i < |s.threads| && Enabled(s, i)
    requires WritersHold(s) && Step(s, i).locks.writeCounter > 0
    ensures WritersHold(Step(s, i))
  {
    var t', rest := Advance(s.threads[i], s.locks), Count(Without(s.threads, i));
    StepInv(s, i);
    CountSplit(s.threads, i);
    CountSplit(Step(s, i).threads, i);
    assert Without(Step(s, i).threads, i) == Without(s.threads, i);
    PlusWriteOn(rest, s.threads[i].pc);
    PlusWriteOn(rest, t'.pc);
    if 17 <= s.threads[i].pc <= 23 && !(17 <= t'.pc <= 23) {
      LastStepOfWriter(s.threads[i], s.locks);
      WritersRemain(rest, Step(s, i).locks);
    }
  }

  lemma WritersKeepReadersOut(s: State, i: nat)
    requires Inv(s) && i < |s.threads| && Enabled(s, i) && WritersHold(s)
    ensures NobodyNew(s, Step(s, i))
  {
    if Passed(Advance(s.threads[i], s.locks)) {
      NobodyPasses(s.threads[i], s.locks);
    }
  }

  lemma WriterPriorityStep(s: State, s': State)
    requires Inv(s) && Next(s, s') && WritersHold(s) && s'.locks.writeCounter > 0
    ensures WritersHold(s') && NobodyNew(s, s')
  {
    var i: nat :| i < |s.threads| && Enabled(s, i) && s' == Step(s, i);
    WritersKeepHolding(s, i);
    WritersKeepReadersOut(s, i);
  }

  /**
   From when the write switch has taken no_readers, for as long as its counter stays positive,
   the readers past no_readers only ever get fewer.
   */
  lemma {:induction false} WriterPriority(run: seq<State>, first: nat, last: nat)
    requires IsExecution(run) && first <= last < |run|
    requires WritersHold(run[first])
    requires forall k :: first <= k <= last ==> run[k].locks.writeCounter > 0
    ensures WritersHold(run[last])
    ensures NobodyNew(run[first], run[last])
    decreases last
  {
    if first < last {
      WriterPriority(run, first, last - 1);
      ExecutionInv(run, last - 1);
      RunNext(run, last);
      WriterPriorityStep(run[last - 1], run[last]);
    }
  }

  /** The write switch has taken no_readers from the moment its first writer does so. */
  lemma FirstWriterHolds(s: State, i: nat)
    requires Inv(s) && i < |s.threads| && Enabled(s, i) && s.threads[i].pc == 16
    ensures WritersHold(Step(s, i)) && Step(s, i).locks.writeCounter > 0
  {
    CountHere(s.threads, i);
    CountHere(Step(s, i).threads, i);
  }

  // ----- readers come in while others stay inside -----

  /** A step of a thread that is on its way in or out: nobody begins, and nobody inside leaves. */
  ghost predicate NextUnderWay(s: State, s': State) {
    exists i: nat :: i < |s.threads| && s.threads[i].pc !in {IDLE, READING} && Enabled(s, i) && s' == Step(s, i)
  }

  /** What has become of a thread while readers inside stayed there. */
  predicate StaysOnCourse(t: Thread, t': Thread) {
    if 1 <= t.pc <= READING then 1 <= t'.pc <= READING
    else if t.pc == IDLE then t' == t
    else 10 <= t'.pc <= 13 || t'.pc == IDLE
  }

  ghost predicate OnCourse(s: State, s': State) {
    && |s'.threads| == |s.threads|
    && forall i :: 0 <= i < |s.threads| ==>
         s.threads[i].pc <= 13 && s'.threads[i].pc <= 13 && StaysOnCourse(s.threads[i], s'.threads[i])
  }

  lemma StepOnCourse(first: State, s: State, s': State)
    requires OnCourse(first, s) && NextUnderWay(s, s')
    ensures OnCourse(first, s') && Next(s, s')
  {
    var i: nat :| i < |s.threads| && s.threads[i].pc !in {IDLE, READING} && Enabled(s, i) && s' == Step(s, i);
  }

  lemma {:induction false} RunOnCourse(run: seq<State>, k: nat, j: nat)
    requires IsExecution(run) && k <= j < |run|
    requires forall i :: 0 <= i < |run[k].threads| ==> run[k].threads[i].pc <= 13
    requires forall m :: k <= m < j ==> NextUnderWay(run[m], run[m + 1])
    ensures OnCourse(run[k], run[j]) && Work(run[j].threads) + (j - k) <= Work(run[k].threads)
    decreases j
  {
    if k < j {
      RunOnCourse(run, k, j - 1);
      assert NextUnderWay(run[j - 1], run[j - 1 + 1]);
      StepOnCourse(run[k], run[j - 1], run[j]);
      NextIsProgress(run[j - 1], run[j]);
    }
  }

  /**
   Without a writer about, let the readers inside stay there and nobody else begin: after finitely many steps of the
   others, when none of them can go on, every reader that was on its way in is inside and every one on its way out is
   out.
   */
  lemma ReadersComeIn(run: seq<State>, k: nat)
    requires IsExecution(run) && k < |run|
    requires forall i :: 0 <= i < |run[k].threads| ==> run[k].threads[i].pc <= 13
    requires forall m :: k <= m < |run| - 1 ==> NextUnderWay(run[m], run[m + 1])
    ensures |run| - 1 - k <= Work(run[k].threads)
    ensures var s, last := run[k], run[|run| - 1];
      (forall j :: 0 <= j < |last.threads| && last.threads[j].pc !in {IDLE, READING} ==> !Enabled(last, j)) ==>
        |last.threads| == |s.threads| &&
        forall i :: 0 <= i < |s.threads| ==>
          last.threads[i].pc == if 1 <= s.threads[i].pc <= READING then READING else IDLE
  {
    var s, last := run[k], run[|run| - 1];
    RunOnCourse(run, k, |run| - 1);
    if forall j :: 0 <= j < |last.threads| && last.threads[j].pc !in {IDLE, READING} ==> !Enabled(last, j) {
      forall i: nat | i < |last.threads| ensures last.threads[i].pc in {IDLE, READING} {
        if last.threads[i].pc !in {IDLE, READING} { ReadersDoNotWaitForReaders(run, |run| - 1, i); }
      }
    }
  }

  // ----- a writer comes in while the writer inside stays -----

  /** A step of a thread that is on its way, or of a reader that leaves: nobody begins, and no writer inside leaves. */
  ghost predicate NextButWriting(s: State, s': State) {
    exists i: nat :: i < |s.threads| && s.threads[i].pc !in {IDLE, WRITING} && Enabled(s, i) && s' == Step(s, i)
  }

  predicate ComingToWrite(t: Thread) { WRITER <= t.pc <= WRITING }

  ghost predicate WritersStay(s: State, s': State) {
    && |s'.threads| == |s.threads|
    && forall i :: 0 <= i < |s.threads| && ComingToWrite(s.threads[i]) ==> ComingToWrite(s'.threads[i])
  }

  lemma StepToWrite(first: State, s: State, s': State)
    requires WritersStay(first, s) && NextButWriting(s, s')
    ensures WritersStay(first, s') && Next(s, s')
  {
    var i: nat :| i < |s.threads| && s.threads[i].pc !in {IDLE, WRITING} && Enabled(s, i) && s' == Step(s, i);
  }

  /** Such a step comes next in the run. */
  ghost predicate OthersStep(run: seq<State>, m: nat) {
    m + 1 < |run| && NextButWriting(run[m], run[m + 1])
  }

  lemma StepInRun(run: seq<State>, first: State, j: nat)
    requires OthersStep(run, j) && WritersStay(first, run[j])
    ensures WritersStay(first, run[j + 1]) && Work(run[j + 1].threads) < Work(run[j].threads)
  {
    StepToWrite(first, run[j], run[j + 1]);
    NextIsProgress(run[j], run[j + 1]);
  }

  lemma {:induction false} RunToWrite(run: seq<State>, k: nat, j: nat)
    requires k <= j < |run| && forall m :: k <= m < j ==> OthersStep(run, m)
    ensures WritersStay(run[k], run[j]) && Work(run[j].threads) + (j - k) <= Work(run[k].threads)
    decreases j
  {
    if k < j {
      RunToWrite(run, k, j - 1);
      StepInRun(run, run[k], j - 1);
    }
  }

  /**
   Let nobody else begin, and the writer inside stay there if there is one: after finitely many steps of the others,
   when none of them can go on, a writer is inside if any was inside or on its way in.
   */
  lemma AWriterComesIn(run: seq<State>, k: nat, i: nat)
    requires IsExecution(run) && k < |run| && i < |run[k].threads| && ComingToWrite(run[k].threads[i])
    requires forall m :: k <= m < |run| - 1 ==> OthersStep(run, m)
    ensures |run| - 1 - k <= Work(run[k].threads)
    ensures var last := run[|run| - 1];
      (forall j :: 0 <= j < |last.threads| && last.threads[j].pc !in {IDLE, WRITING} ==> !Enabled(last, j)) ==>
        exists j :: 0 <= j < |last.threads| && last.threads[j].pc == WRITING
  {
    var last := run[|run| - 1];
    RunToWrite(run, k, |run| - 1);
    if forall j :: 0 <= j < |last.threads| && last.threads[j].pc !in {IDLE, WRITING} ==> !Enabled(last, j) {
      NoDeadlock(run, |run| - 1, i);
    }
  }

  // ----- the states these theorems speak of are reached -----

  lemma Extended(run: seq<State>, i: nat) returns (longer: seq<State>)
    requires IsExecution(run) && i < |run[|run| - 1].threads| && Enabled(run[|run| - 1], i)
    ensures IsExecution(longer) && |longer| == |run| + 1
    ensures longer[|run|] == Step(run[|run| - 1], i)
  {
    longer := run + [Step(run[|run| - 1], i)];
    forall k | 0 <= k < |longer| - 1 ensures Next(longer[k], longer[k + 1]) {
      if k < |run| - 1 { assert Next(run[k], run[k + 1]); }
    }
  }

  lemma AWriterStarts() returns (run: seq<State>)
    ensures IsExecution(run) && |run| == 4
    ensures run[3] == State([Thread(16, []), Thread(IDLE, [Read])], FREE.(writeMutex := true, writeCounter := 1))
  {
    run := [State([Thread(IDLE, [Write]), Thread(IDLE, [Read])], FREE)];
    run := Extended(run, 0);
    assert run[1] == State([Thread(14, []), Thread(IDLE, [Read])], FREE.(writeMutex := true));
    run := Extended(run, 0);
    run := Extended(run, 0);
  }

  /** A writer that nobody hinders gets in after six steps, while a reader still waits to begin. */
  lemma AWriterGetsIn() returns (run: seq<State>)
    ensures IsExecution(run) && |run| == 7
    ensures run[6].threads == [Thread(WRITING, []), Thread(IDLE, [Read])]
    ensures run[6].locks.noReaders && run[6].locks.noWriters
  {
    run := AWriterStarts();
    run := Extended(run, 0);
    run := Extended(run, 0);
    run := Extended(run, 0);
  }
}
