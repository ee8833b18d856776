/** A readers-writer lock that prefers writers, shared by any number of tasks. */
module RwLock {
  /** What the lock stores, and what the steps of its four operations make of it. */
  datatype State = State(readers: int, writerActive: bool, waitingWriters: int)
  {
    function ReaderIn(): State
    {
      this.(readers := readers + 1)
    }

    function ReaderOut(): State
    {
      this.(readers := readers - 1)
    }

    function WriterWaits(): State
    {
      this.(waitingWriters := waitingWriters + 1)
    }

    /** A writer that gets the lock no longer waits. */
    function WriterIn(): State
    {
      this.(writerActive := true, waitingWriters := waitingWriters - 1)
    }

    function WriterOut(): State
    {
      this.(writerActive := false)
    }

    /** A writer gives up waiting. */
    function WriterGivesUp(): State
    {
      this.(waitingWriters := waitingWriters - 1)
    }
  }

  const FREE: State := State(0, false, 0)

  predicate ReadersWait(s: State)
  {
    s.writerActive || s.waitingWriters > 0
  }

  predicate WritersWait(s: State)
  {
    s.writerActive || s.readers > 0
  }

  // ----- tasks -----

  type Task = nat

  /** Woken tasks wait for the inner mutex, sleeping tasks for the condition. */
  datatype Phase =
    | Idle
    | WantsRead | ReadAsleep | ReadAwake | Reading
    | WantsWrite | WriteAsleep | WriteAwake | Writing

  datatype System = System(lock: State, tasks: map<Task, Phase>)

  function In(sys: System, p: Phase): set<Task>
  {
    set t | t in sys.tasks && sys.tasks[t] == p
  }

  function Move(sys: System, t: Task, p: Phase, lock: State): System
  {
    System(lock, sys.tasks[t := p])
  }

  /** notify_all. */
  function Wake(tasks: map<Task, Phase>): map<Task, Phase>
  {
    map t | t in tasks ::
      if tasks[t] == ReadAsleep then ReadAwake else if tasks[t] == WriteAsleep then WriteAwake else tasks[t]
  }

  function TriesRead(sys: System, t: Task): System
  {
    if ReadersWait(sys.lock) then Move(sys, t, ReadAsleep, sys.lock)
    else Move(sys, t, Reading, sys.lock.ReaderIn())
  }

  function TriesWrite(sys: System, t: Task): System
  {
    if WritersWait(sys.lock) then Move(sys, t, WriteAsleep, sys.lock)
    else Move(sys, t, Writing, sys.lock.WriterIn())
  }

  function Announced(sys: System): System
  {
    sys.(lock := sys.lock.WriterWaits())
  }

  function StopsReading(sys: System, t: Task): System
  {
    var sys' := Move(sys, t, Idle, sys.lock.ReaderOut());
    if sys'.lock.readers == 0 then sys'.(tasks := Wake(sys'.tasks)) else sys'
  }

  function StopsWriting(sys: System, t: Task): System
  {
    var sys' := Move(sys, t, Idle, sys.lock.WriterOut());
    sys'.(tasks := Wake(sys'.tasks))
  }

  /** What task t does next, if it is its turn; want tells what an idle task asks for. */
  function Turn(sys: System, t: Task, want: Phase): System
    requires t in sys.tasks
  {
    match sys.tasks[t]
    case Idle => if want == WantsRead || want == WantsWrite then Move(sys, t, want, sys.lock) else sys
    case WantsRead => TriesRead(sys, t)
    case ReadAsleep => sys
    case ReadAwake => TriesRead(sys, t)
    case Reading => StopsReading(sys, t)
    case WantsWrite => TriesWrite(Announced(sys), t)
    case WriteAsleep => sys
    case WriteAwake => TriesWrite(sys, t)
    case Writing => StopsWriting(sys, t)
  }

  type Schedule = seq<(Task, Phase)>

  /** The state after the turns of a schedule; turns of unknown tasks do nothing. */
  function After(tasks: set<Task>, schedule: Schedule): (sys: System)
    ensures sys.tasks.Keys == tasks
  {
    if schedule == [] then System(FREE, map t | t in tasks :: Idle)
    else
      var n := |schedule| - 1;
      var before := After(tasks, schedule[..n]);
      if schedule[n].0 in tasks then
        TurnKeepsTasks(before, schedule[n].0, schedule[n].1);
        Turn(before, schedule[n].0, schedule[n].1)
      else before
  }

  lemma TurnKeepsTasks(sys: System, t: Task, want: Phase)
    requires t in sys.tasks
    ensures Turn(sys, t, want).tasks.Keys == sys.tasks.Keys
  {
  }

  // ----- what every turn keeps -----

  /** Who is where. */
  datatype Census = Census(reading: set<Task>, writing: set<Task>, readAsleep: set<Task>, writeAsleep: set<Task>,
                           writeAwake: set<Task>)
  {
    function Waiting(): set<Task>
    {
      writeAsleep + writeAwake
    }
  }

  function CensusOf(sys: System): Census
  {
    Census(In(sys, Reading), In(sys, Writing), In(sys, ReadAsleep), In(sys, WriteAsleep), In(sys, WriteAwake))
  }

  /** The counters count, and nobody holds the lock together with a writer. */
  ghost predicate Exclusive(l: State, c: Census)
  {
    && l.readers == |c.reading|
    && l.waitingWriters == |c.Waiting()|
    && (l.writerActive <==> c.writing != {})
    && (forall t, u :: t in c.writing && u in c.writing ==> t == u)
    && (c.writing != {} ==> c.reading == {})
  }

  /** Whoever sleeps will be woken: a writer by a holder, a reader by an active or waiting writer. */
  ghost predicate NoLostWakeup(l: State, c: Census)
  {
    && (c.writeAsleep != {} ==> WritersWait(l))
    && (c.readAsleep != {} ==> ReadersWait(l))
  }

  ghost predicate Good(l: State, c: Census)
  {
    Exclusive(l, c) && NoLostWakeup(l, c)
  }

  lemma ReadGranted(l: State, c: Census, t: Task)
    requires Good(l, c) && !ReadersWait(l) && t !in c.reading
    ensures Good(l.ReaderIn(), c.(reading := c.reading + {t}))
  {
  }

  lemma ReadRefused(l: State, c: Census, t: Task)
    requires Good(l, c) && ReadersWait(l)
    ensures Good(l, c.(readAsleep := c.readAsleep + {t}))
  {
  }

  lemma WriteGranted(l: State, c: Census, t: Task)
    requires Good(l, c) && !WritersWait(l)
    ensures var c' := c.(writing := c.writing + {t}, writeAwake := c.writeAwake - {t});
      Good(State(l.readers, true, |c'.Waiting()|), c')
  {
  }

  lemma WriteRefused(l: State, c: Census, t: Task)
    requires Good(l, c) && WritersWait(l)
    ensures var c' := c.(writeAsleep := c.writeAsleep + {t}, writeAwake := c.writeAwake - {t});
      Good(l.(waitingWriters := |c'.Waiting()|), c')
  {
    var c' := c.(writeAsleep := c.writeAsleep + {t}, writeAwake := c.writeAwake - {t});
    assert t in c'.Waiting();
  }

  lemma ReadReleased(l: State, c: Census, t: Task)
    requires Good(l, c) && t in c.reading
    ensures var l', c' := l.ReaderOut(), c.(reading := c.reading - {t});
      if l'.readers == 0 then Exclusive(l', c') else Good(l', c')
  {
  }

  lemma WriteReleased(l: State, c: Census, t: Task)
    requires Good(l, c) && t in c.writing
    ensures Exclusive(l.WriterOut(), c.(writing := c.writing - {t}))
  {
  }

  /** Waking everybody loses nobody. */
  lemma EverybodyWoken(l: State, c: Census)
    requires Exclusive(l, c)
    ensures Good(l, c.(readAsleep := {}, writeAsleep := {}, writeAwake := c.Waiting()))
  {
    assert c.(readAsleep := {}, writeAsleep := {}, writeAwake := c.Waiting()).Waiting() == c.Waiting();
  }

  function Enter(c: Census, t: Task, p: Phase): Census
  {
    match p
    case Reading => c.(reading := c.reading + {t})
    case Writing => c.(writing := c.writing + {t})
    case ReadAsleep => c.(readAsleep := c.readAsleep + {t})
    case WriteAsleep => c.(writeAsleep := c.writeAsleep + {t})
    case WriteAwake => c.(writeAwake := c.writeAwake + {t})
    case _ => c
  }

  function Exit(c: Census, t: Task, p: Phase): Census
  {
    match p
    case Reading => c.(reading := c.reading - {t})
    case Writing => c.(writing := c.writing - {t})
    case ReadAsleep => c.(readAsleep := c.readAsleep - {t})
    case WriteAsleep => c.(writeAsleep := c.writeAsleep - {t})
    case WriteAwake => c.(writeAwake := c.writeAwake - {t})
    case _ => c
  }

  lemma InMoves(sys: System, t: Task, p: Phase, lock: State, q: Phase)
    requires t in sys.tasks && p != sys.tasks[t]
    ensures In(Move(sys, t, p, lock), q) ==
      if q == p then In(sys, q) + {t} else if q == sys.tasks[t] then In(sys, q) - {t} else In(sys, q)
  {
  }

  /** Moving one task changes the sets of its old and its new phase, and no others. */
  lemma CensusMove(sys: System, t: Task, p: Phase, lock: State)
    requires t in sys.tasks && p != sys.tasks[t]
    ensures CensusOf(Move(sys, t, p, lock)) == Enter(Exit(CensusOf(sys), t, sys.tasks[t]), t, p)
  {
    InMoves(sys, t, p, lock, Reading);
    InMoves(sys, t, p, lock, Writing);
    InMoves(sys, t, p, lock, ReadAsleep);
    InMoves(sys, t, p, lock, WriteAsleep);
    InMoves(sys, t, p, lock, WriteAwake);
  }

  lemma CensusWake(sys: System)
    ensures CensusOf(sys.(tasks := Wake(sys.tasks))) ==
      CensusOf(sys).(readAsleep := {}, writeAsleep := {}, writeAwake := CensusOf(sys).Waiting())
  {
    InWakes(sys, Reading);
    InWakes(sys, Writing);
    InWakes(sys, ReadAsleep);
    InWakes(sys, WriteAsleep);
    InWakes(sys, WriteAwake);
  }

  lemma InWakes(sys: System, q: Phase)
    ensures In(sys.(tasks := Wake(sys.tasks)), q) ==
      if q == ReadAsleep || q == WriteAsleep then {}
      else if q == ReadAwake then In(sys, ReadAwake) + In(sys, ReadAsleep)
      else if q == WriteAwake then In(sys, WriteAsleep) + In(sys, WriteAwake)
      else In(sys, q)
  {
  }

  lemma NotIn(sys: System, t: Task, q: Phase)
    requires t in sys.tasks && sys.tasks[t] != q
    ensures t !in In(sys, q)
  {
  }

  ghost predicate GoodSystem(sys: System)
  {
    Good(sys.lock, CensusOf(sys))
  }

  lemma AskKeeps(sys: System, t: Task, want: Phase)
    requires GoodSystem(sys) && t in sys.tasks && sys.tasks[t] == Idle && (want == WantsRead || want == WantsWrite)
    ensures GoodSystem(Move(sys, t, want, sys.lock))
  {
    CensusMove(sys, t, want, sys.lock);
  }

  lemma TriesReadKeeps(sys: System, t: Task)
    requires GoodSystem(sys) && t in sys.tasks && (sys.tasks[t] == WantsRead || sys.tasks[t] == ReadAwake)
    ensures GoodSystem(TriesRead(sys, t))
  {
    var l, c := sys.lock, CensusOf(sys);
    assert Exit(c, t, sys.tasks[t]) == c;
    if ReadersWait(l) {
      CensusMove(sys, t, ReadAsleep, l);
      ReadRefused(l, c, t);
    } else {
      NotIn(sys, t, Reading);
      CensusMove(sys, t, Reading, l.ReaderIn());
      ReadGranted(l, c, t);
    }
  }

  /** count is how many writers wait, including t. */
  lemma TriesWriteKeeps(sys: System, t: Task, count: int)
    requires GoodSystem(sys) && t in sys.tasks && (sys.tasks[t] == WantsWrite || sys.tasks[t] == WriteAwake)
    requires count == |CensusOf(sys).Waiting() + {t}|
    ensures GoodSystem(TriesWrite(sys.(lock := sys.lock.(waitingWriters := count)), t))
  {
    var l, c := sys.lock, CensusOf(sys);
    var sys1 := sys.(lock := l.(waitingWriters := count));
    var sys' := TriesWrite(sys1, t);
    CensusMove(sys1, t, sys'.tasks[t], sys'.lock);
    NotIn(sys, t, WriteAsleep);
    assert Exit(c, t, sys.tasks[t]) == Exit(c, t, WriteAwake) by {
      if sys.tasks[t] == WantsWrite {
        NotIn(sys, t, WriteAwake);
        Without(c.writeAwake, t);
      }
    }
    WriteTried(l, c, t);
  }

  lemma Without(S: set<Task>, t: Task)
    requires t !in S
    ensures S - {t} == S
  {
  }

  lemma Moved(A: set<Task>, B: set<Task>, t: Task)
    ensures A + {t} + (B - {t}) == A + B + {t}
    ensures t !in A ==> |A + (B - {t})| == |A + B + {t}| - 1
  {
    assert A + {t} + (B - {t}) == A + B + {t};
    if t !in A {
      assert A + B + {t} == A + (B - {t}) + {t};
    }
  }

  lemma WriteTried(l: State, c: Census, t: Task)
    requires Good(l, c) && t !in c.writeAsleep
    ensures var c0, count := Exit(c, t, WriteAwake), |c.Waiting() + {t}|;
      if WritersWait(l) then Good(l.(waitingWriters := count), Enter(c0, t, WriteAsleep))
      else Good(State(l.readers, true, count - 1), Enter(c0, t, Writing))
  {
    Moved(c.writeAsleep, c.writeAwake, t);
    if WritersWait(l) { WriteRefused(l, c, t); } else { WriteGranted(l, c, t); }
  }

  lemma StopsReadingKeeps(sys: System, t: Task)
    requires GoodSystem(sys) && t in sys.tasks && sys.tasks[t] == Reading
    ensures GoodSystem(StopsReading(sys, t))
  {
    var l, c := sys.lock, CensusOf(sys);
    var sys1 := Move(sys, t, Idle, l.ReaderOut());
    CensusMove(sys, t, Idle, sys1.lock);
    ReadReleased(l, c, t);
    CensusWake(sys1);
    EverybodyWoken(sys1.lock, CensusOf(sys1));
  }

  lemma StopsWritingKeeps(sys: System, t: Task)
    requires GoodSystem(sys) && t in sys.tasks && sys.tasks[t] == Writing
    ensures GoodSystem(StopsWriting(sys, t))
  {
    var l, c := sys.lock, CensusOf(sys);
    var sys1 := Move(sys, t, Idle, l.WriterOut());
    CensusMove(sys, t, Idle, sys1.lock);
    WriteReleased(l, c, t);
    CensusWake(sys1);
    EverybodyWoken(sys1.lock, CensusOf(sys1));
  }

  lemma NewWriterKeeps(sys: System, t: Task)
    requires GoodSystem(sys) && t in sys.tasks && sys.tasks[t] == WantsWrite
    ensures GoodSystem(TriesWrite(Announced(sys), t))
  {
    NotIn(sys, t, WriteAsleep);
    NotIn(sys, t, WriteAwake);
    OneMore(CensusOf(sys).Waiting(), t);
    TriesWriteKeeps(sys, t, sys.lock.waitingWriters + 1);
  }

  lemma OneMore(S: set<Task>, t: Task)
    requires t !in S
    ensures |S + {t}| == |S| + 1
  {
  }

  lemma WokenWriterKeeps(sys: System, t: Task)
    requires GoodSystem(sys) && t in sys.tasks && sys.tasks[t] == WriteAwake
    ensures GoodSystem(TriesWrite(sys, t))
  {
    assert CensusOf(sys).Waiting() + {t} == CensusOf(sys).Waiting();
    TriesWriteKeeps(sys, t, sys.lock.waitingWriters);
  }

  lemma TurnKeeps(sys: System, t: Task, want: Phase)
    requires GoodSystem(sys) && t in sys.tasks
    ensures GoodSystem(Turn(sys, t, want))
  {
    match sys.tasks[t]
    case Idle => if want == WantsRead || want == WantsWrite { AskKeeps(sys, t, want); }
    case WantsRead => TriesReadKeeps(sys, t);
    case ReadAwake => TriesReadKeeps(sys, t);
    case Reading => StopsReadingKeeps(sys, t);
    case WantsWrite => NewWriterKeeps(sys, t);
    case WriteAwake => WokenWriterKeeps(sys, t);
    case Writing => StopsWritingKeeps(sys, t);
    case _ =>
  }

  // ----- over every schedule -----

  /** Mutual exclusion, right counts and no lost wake-up, for any tasks and any schedule. */
  lemma {:induction false} AlwaysExclusive(tasks: set<Task>, schedule: Schedule)
    ensures GoodSystem(After(tasks, schedule))
  {
    if schedule == [] {
      assert CensusOf(After(tasks, schedule)) == Census({}, {}, {}, {}, {});
      assert Census({}, {}, {}, {}, {}).Waiting() == {};
    } else {
      var n := |schedule| - 1;
      AlwaysExclusive(tasks, schedule[..n]);
      if schedule[n].0 in tasks { TurnKeeps(After(tasks, schedule[..n]), schedule[n].0, schedule[n].1); }
    }
  }

  /** Writers come first: while one waits, a turn never adds a reader. */
  lemma WritersComeFirst(sys: System, t: Task, want: Phase)
    requires GoodSystem(sys) && t in sys.tasks && CensusOf(sys).Waiting() != {}
    ensures In(Turn(sys, t, want), Reading) <= In(sys, Reading)
  {
    assert ReadersWait(sys.lock);
    match sys.tasks[t]
    case Idle => if want == WantsRead || want == WantsWrite { InMoves(sys, t, want, sys.lock, Reading); }
    case WantsRead => InMoves(sys, t, ReadAsleep, sys.lock, Reading);
    case ReadAwake => InMoves(sys, t, ReadAsleep, sys.lock, Reading);
    case Reading => LeavesReaders(sys, t, sys.lock.ReaderOut());
    case WantsWrite => TryingToWriteAddsNoReader(Announced(sys), t);
    case WriteAwake => TryingToWriteAddsNoReader(sys, t);
    case Writing => LeavesReaders(sys, t, sys.lock.WriterOut());
    case _ =>
  }

  lemma LeavesReaders(sys: System, t: Task, lock: State)
    requires t in sys.tasks && sys.tasks[t] != Idle
    ensures In(Move(sys, t, Idle, lock), Reading) <= In(sys, Reading)
    ensures In(System(lock, Wake(Move(sys, t, Idle, lock).tasks)), Reading) <= In(sys, Reading)
  {
    InMoves(sys, t, Idle, lock, Reading);
    CensusWake(Move(sys, t, Idle, lock));
  }

  lemma TryingToWriteAddsNoReader(sys: System, t: Task)
    requires t in sys.tasks && (sys.tasks[t] == WantsWrite || sys.tasks[t] == WriteAwake)
    ensures In(TriesWrite(sys, t), Reading) <= In(sys, Reading)
  {
    var sys' := TriesWrite(sys, t);
    InMoves(sys, t, sys'.tasks[t], sys'.lock, Reading);
  }

  /** Some writer waits before each of the turns in after. */
  ghost predicate WriterKeepsWaiting(tasks: set<Task>, before: Schedule, after: Schedule)
  {
    after != [] ==>
      var init := after[..|after| - 1];
      WriterKeepsWaiting(tasks, before, init) && CensusOf(After(tasks, before + init)).Waiting() != {}
  }

  /** As long as some writer keeps waiting, the readers only become fewer. */
  lemma {:induction false} ReadersDrain(tasks: set<Task>, before: Schedule, after: Schedule)
    requires WriterKeepsWaiting(tasks, before, after)
    ensures In(After(tasks, before + after), Reading) <= In(After(tasks, before), Reading)
  {
    if after == [] {
      assert before + after == before;
    } else {
      var n := |after| - 1;
      var mid := before + after[..n];
      ReadersDrain(tasks, before, after[..n]);
      assert before + after == mid + [after[n]];
      NoNewReader(tasks, mid, after[n]);
    }
  }

  lemma NoNewReader(tasks: set<Task>, schedule: Schedule, turn: (Task, Phase))
    requires CensusOf(After(tasks, schedule)).Waiting() != {}
    ensures In(After(tasks, schedule + [turn]), Reading) <= In(After(tasks, schedule), Reading)
  {
    AlwaysExclusive(tasks, schedule);
    OneMoreTurn(tasks, schedule, turn);
    if turn.0 in tasks { WritersComeFirst(After(tasks, schedule), turn.0, turn.1); }
  }

  lemma OneMoreTurn(tasks: set<Task>, schedule: Schedule, turn: (Task, Phase))
    ensures After(tasks, schedule + [turn]) ==
      if turn.0 in tasks then Turn(After(tasks, schedule), turn.0, turn.1) else After(tasks, schedule)
  {
    assert (schedule + [turn])[..|schedule|] == schedule;
  }

  predicate WaitsFor(p: Phase)
  {
    p != Idle && p != Reading && p != Writing
  }

  /** A free lock that somebody waits for can be taken by somebody, on their next turn. */
  lemma FreeLockIsTaken(tasks: set<Task>, schedule: Schedule, waiting: Task) returns (t: Task)
    requires var sys := After(tasks, schedule);
      waiting in tasks && WaitsFor(sys.tasks[waiting]) && In(sys, Reading) == {} && In(sys, Writing) == {}
    ensures t in tasks && forall want :: Turn(After(tasks, schedule), t, want).tasks[t] in {Reading, Writing}
  {
    var sys := After(tasks, schedule);
    AlwaysExclusive(tasks, schedule);
    assert !WritersWait(sys.lock);
    var writers := In(sys, WantsWrite) + In(sys, WriteAwake);
    if writers != {} {
      t :| t in writers;
    } else {
      assert CensusOf(sys).Waiting() == {};
      assert !ReadersWait(sys.lock);
      assert waiting !in In(sys, ReadAsleep) && waiting !in In(sys, WriteAsleep) && waiting !in writers;
      t := waiting;
    }
  }

  // ----- the lock itself -----

  /** Each method is what a task does with the inner mutex held, between two waits on the condition. */
  class Lock {
    var readers: int
    var writerActive: bool
    var waitingWriters: int
    /** Where the tasks are, and the turns that they have had. */
    ghost var tasks: map<Task, Phase>
    ghost var schedule: Schedule

    ghost function Current(): System
      reads this
    {
      System(State(readers, writerActive, waitingWriters), tasks)
    }

    /** The lock is what the turns so far have made of it. */
    ghost predicate Valid()
      reads this
    {
      Current() == After(tasks.Keys, schedule)
    }

    constructor (ghost all: set<Task>)
      ensures Valid() && tasks.Keys == all && schedule == []
    {
      readers, writerActive, waitingWriters := 0, false, 0;
      tasks, schedule := map t | t in all :: Idle, [];
    }

    /** An idle task asks for the lock. */
    ghost method Ask(t: Task, want: Phase)
      requires Valid() && t in tasks && tasks[t] == Idle && (want == WantsRead || want == WantsWrite)
      modifies this
      ensures Valid() && schedule == old(schedule) + [(t, want)] && tasks == old(tasks)[t := want]
    {
      OneMoreTurn(tasks.Keys, schedule, (t, want));
      tasks, schedule := tasks[t := want], schedule + [(t, want)];
    }

    /** The turn of t moves it to phase p. */
    ghost method Advance(t: Task, p: Phase)
      requires t in tasks
      modifies `tasks, `schedule
      ensures tasks == old(tasks)[t := p] && schedule == old(schedule) + [(t, Idle)]
    {
      tasks, schedule := tasks[t := p], schedule + [(t, Idle)];
    }

    /** One turn of the loop in acquire_reader: t gets the lock exactly when nobody writes or waits to write. */
    method TryReader(ghost t: Task) returns (acquired: bool)
      requires Valid() && t in tasks && (tasks[t] == WantsRead || tasks[t] == ReadAwake)
      modifies this
      ensures Valid() && schedule == old(schedule) + [(t, Idle)]
      ensures acquired <==> In(old(Current()), Writing) == {} && CensusOf(old(Current())).Waiting() == {}
      ensures tasks == old(tasks)[t := if acquired then Reading else ReadAsleep]
    {
      AlwaysExclusive(tasks.Keys, schedule);
      OneMoreTurn(tasks.Keys, schedule, (t, Idle));
      acquired := !(writerActive || waitingWriters > 0);
      if acquired { readers := readers + 1; }
      Advance(t, if acquired then Reading else ReadAsleep);
    }

    /** release_reader: when t was the last reader, nobody sleeps afterwards. */
    method ReleaseReader(ghost t: Task) returns (notifyAll: bool)
      requires Valid() && t in tasks && tasks[t] == Reading
      modifies this
      ensures Valid() && schedule == old(schedule) + [(t, Idle)]
      ensures notifyAll <==> In(old(Current()), Reading) == {t}
      ensures tasks == if notifyAll then Wake(old(tasks)[t := Idle]) else old(tasks)[t := Idle]
    {
      AlwaysExclusive(tasks.Keys, schedule);
      OneMoreTurn(tasks.Keys, schedule, (t, Idle));
      LastOne(In(Current(), Reading), t);
      readers := readers - 1;
      notifyAll := readers == 0;
      Advance(t, Idle);
      if notifyAll { tasks := Wake(tasks); }
    }

    /** The start of acquire_writer and the first turn of its loop: t gets the lock exactly when nobody holds it. */
    method StartWriter(ghost t: Task) returns (acquired: bool)
      requires Valid() && t in tasks && tasks[t] == WantsWrite
      modifies this
      ensures Valid() && schedule == old(schedule) + [(t, Idle)]
      ensures acquired <==> In(old(Current()), Reading) == {} && In(old(Current()), Writing) == {}
      ensures tasks == old(tasks)[t := if acquired then Writing else WriteAsleep]
    {
      AlwaysExclusive(tasks.Keys, schedule);
      OneMoreTurn(tasks.Keys, schedule, (t, Idle));
      waitingWriters := waitingWriters + 1;
      acquired := !(writerActive || readers > 0);
      if acquired { writerActive, waitingWriters := true, waitingWriters - 1; }
      Advance(t, if acquired then Writing else WriteAsleep);
    }

    /** A later turn of the loop in acquire_writer. */
    method TryWriter(ghost t: Task) returns (acquired: bool)
      requires Valid() && t in tasks && tasks[t] == WriteAwake
      modifies this
      ensures Valid() && schedule == old(schedule) + [(t, Idle)]
      ensures acquired <==> In(old(Current()), Reading) == {} && In(old(Current()), Writing) == {}
      ensures tasks == old(tasks)[t := if acquired then Writing else WriteAsleep]
    {
      AlwaysExclusive(tasks.Keys, schedule);
      OneMoreTurn(tasks.Keys, schedule, (t, Idle));
      acquired := !(writerActive || readers > 0);
      if acquired { writerActive, waitingWriters := true, waitingWriters - 1; }
      Advance(t, if acquired then Writing else WriteAsleep);
    }

    /** release_writer: nobody holds the lock and nobody sleeps afterwards. */
    method ReleaseWriter(ghost t: Task)
      requires Valid() && t in tasks && tasks[t] == Writing
      modifies this
      ensures Valid() && schedule == old(schedule) + [(t, Idle)]
      ensures tasks == Wake(old(tasks)[t := Idle])
      ensures In(Current(), Reading) == {} && In(Current(), Writing) == {}
    {
      AlwaysExclusive(tasks.Keys, schedule);
      OneMoreTurn(tasks.Keys, schedule, (t, Idle));
      assert t in In(Current(), Writing);
      writerActive := false;
      NobodyHolds(Current(), t);
      Advance(t, Idle);
      tasks := Wake(tasks);
    }
  }

  lemma LastOne(S: set<Task>, t: Task)
    requires t in S
    ensures |S| == 1 <==> S == {t}
  {
    assert S == S - {t} + {t};
  }

  /** When the only holder leaves, nobody holds the lock. */
  lemma NobodyHolds(sys: System, t: Task)
    requires t in sys.tasks && sys.tasks[t] == Writing
    requires In(sys, Reading) == {} && forall u :: u in In(sys, Writing) ==> u == t
    ensures forall u {:trigger Wake(sys.tasks[t := Idle])[u]} :: u in sys.tasks ==>
      Wake(sys.tasks[t := Idle])[u] != Reading && Wake(sys.tasks[t := Idle])[u] != Writing
  {
    forall u | u in sys.tasks
      ensures Wake(sys.tasks[t := Idle])[u] != Reading && Wake(sys.tasks[t := Idle])[u] != Writing
    {
      if u != t { assert u !in In(sys, Reading) && u !in In(sys, Writing); }
    }
  }

  // ----- cancellation -----

  /** A writer that is cancelled while it waits leaves without waking anybody. */
  function Cancelled(sys: System, t: Task): System
  {
    Move(sys, t, Idle, sys.lock.WriterGivesUp())
  }

  /** Cancelling a waiting writer keeps exclusion, and loses a wake-up exactly when it was the last writer
      for whom readers sleep. */
  lemma CancellationLosesWakeup(sys: System, t: Task)
    requires GoodSystem(sys) && t in CensusOf(sys).Waiting()
    ensures Exclusive(Cancelled(sys, t).lock, CensusOf(Cancelled(sys, t)))
    ensures NoLostWakeup(Cancelled(sys, t).lock, CensusOf(Cancelled(sys, t))) <==>
      In(sys, ReadAsleep) == {} || sys.lock.writerActive || sys.lock.waitingWriters > 1
  {
    var p := sys.tasks[t];
    CensusMove(sys, t, Idle, Cancelled(sys, t).lock);
    if p == WriteAsleep { NotIn(sys, t, WriteAwake); } else { NotIn(sys, t, WriteAsleep); }
    WriterGone(sys.lock, CensusOf(sys), t, p);
  }

  lemma WriterGone(l: State, c: Census, t: Task, p: Phase)
    requires (p == WriteAsleep && t in c.writeAsleep && t !in c.writeAwake)
      || (p == WriteAwake && t in c.writeAwake && t !in c.writeAsleep)
    requires Good(l, c)
    ensures var l', c' := l.WriterGivesUp(), Exit(c, t, p);
      && Exclusive(l', c')
      && (NoLostWakeup(l', c') <==> c.readAsleep == {} || l.writerActive || l.waitingWriters > 1)
  {
    WaitingFalls(c, Exit(c, t, p), t, p);
  }

  lemma WaitingFalls(c: Census, c': Census, t: Task, p: Phase)
    requires (p == WriteAsleep && t in c.writeAsleep && t !in c.writeAwake)
      || (p == WriteAwake && t in c.writeAwake && t !in c.writeAsleep)
    requires c' == Exit(c, t, p)
    ensures |c'.Waiting()| == |c.Waiting()| - 1
  {
    assert c'.Waiting() == c.Waiting() - {t};
  }

  lemma Next(tasks: set<Task>, schedule: Schedule, sys: System, t: Task, want: Phase, sys': System)
    requires After(tasks, schedule) == sys && t in tasks && Turn(sys, t, want) == sys'
    ensures After(tasks, schedule + [(t, want)]) == sys'
  {
    OneMoreTurn(tasks, schedule, (t, want));
  }

  /** A task asks for the lock and tries to take it. */
  lemma AsksAndTries(tasks: set<Task>, schedule: Schedule, sys: System, t: Task, want: Phase, sys1: System,
                     sys2: System)
    returns (schedule': Schedule)
    requires After(tasks, schedule) == sys && t in tasks && Turn(sys, t, want) == sys1 && Turn(sys1, t, Idle) == sys2
    ensures After(tasks, schedule') == sys2
  {
    Next(tasks, schedule, sys, t, want, sys1);
    Next(tasks, schedule + [(t, want)], sys1, t, Idle, sys2);
    schedule' := schedule + [(t, want)] + [(t, Idle)];
  }

  lemma BothWrite() returns (schedule: Schedule)
    ensures After({0, 1, 2}, schedule) == System(State(0, true, 1), map[0 := Writing, 1 := WriteAsleep, 2 := Idle])
  {
    var all: set<Task> := {0, 1, 2};
    var s0 := System(FREE, map[0 := Idle, 1 := Idle, 2 := Idle]);
    var s1 := System(FREE, map[0 := WantsWrite, 1 := Idle, 2 := Idle]);
    var s2 := System(State(0, true, 0), map[0 := Writing, 1 := Idle, 2 := Idle]);
    var s3 := System(State(0, true, 0), map[0 := Writing, 1 := WantsWrite, 2 := Idle]);
    var s4 := System(State(0, true, 1), map[0 := Writing, 1 := WriteAsleep, 2 := Idle]);
    assert After(all, []) == s0;
    schedule := AsksAndTries(all, [], s0, 0, WantsWrite, s1, s2);
    schedule := AsksAndTries(all, schedule, s2, 1, WantsWrite, s3, s4);
  }

  /** Two writers and a reader, the second writer and the reader asleep. */
  lemma BothAsleep() returns (schedule: Schedule)
    ensures After({0, 1, 2}, schedule)
      == System(State(0, true, 1), map[0 := Writing, 1 := WriteAsleep, 2 := ReadAsleep])
  {
    var all: set<Task> := {0, 1, 2};
    var s4 := System(State(0, true, 1), map[0 := Writing, 1 := WriteAsleep, 2 := Idle]);
    var s5 := System(State(0, true, 1), map[0 := Writing, 1 := WriteAsleep, 2 := WantsRead]);
    var s6 := System(State(0, true, 1), map[0 := Writing, 1 := WriteAsleep, 2 := ReadAsleep]);
    schedule := BothWrite();
    schedule := AsksAndTries(all, schedule, s4, 2, WantsRead, s5, s6);
  }

  /** The first writer has left, and everybody else is awake. */
  lemma BothAwake() returns (schedule: Schedule)
    ensures After({0, 1, 2}, schedule) == System(State(0, false, 1), map[0 := Idle, 1 := WriteAwake, 2 := ReadAwake])
  {
    var s6 := System(State(0, true, 1), map[0 := Writing, 1 := WriteAsleep, 2 := ReadAsleep]);
    var s7 := System(State(0, false, 1), map[0 := Idle, 1 := WriteAwake, 2 := ReadAwake]);
    schedule := BothAsleep();
    assert Turn(s6, 0, Idle).tasks == s7.tasks;
    Next({0, 1, 2}, schedule, s6, 0, Idle, s7);
    schedule := schedule + [(0, Idle)];
  }

  /** A run after which a cancellation leaves a reader asleep although the lock is free and nobody else waits. */
  lemma StrandedReader() returns (schedule: Schedule)
    ensures var sys := Cancelled(After({0, 1, 2}, schedule), 1);
      sys == System(FREE, map[0 := Idle, 1 := Idle, 2 := ReadAsleep])
  {
    var s7 := System(State(0, false, 1), map[0 := Idle, 1 := WriteAwake, 2 := ReadAwake]);
    var s8 := System(State(0, false, 1), map[0 := Idle, 1 := WriteAwake, 2 := ReadAsleep]);
    schedule := BothAwake();
    Next({0, 1, 2}, schedule, s7, 2, Idle, s8);
    schedule := schedule + [(2, Idle)];
    assert Cancelled(s8, 1).tasks == map[0 := Idle, 1 := Idle, 2 := ReadAsleep];
  }
}
