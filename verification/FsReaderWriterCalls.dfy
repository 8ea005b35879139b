/** What the calls of the directory lock come to, for a client that makes one while any others do what they like
    in between. */
module FsReaderWriterCalls {
  import opened FsReaderWriterLock

  /** Not in the middle of a call: idle or in a section. */
  predicate Outside(p: Pc) { p == Idle || p == Reading || p == Writing }

  /** Client `c`, which was at `from`, begins a call in the first of these steps and is in the middle of it up to
      the last. */
  ghost predicate InCall(s: Tree, steps: seq<Step>, c: nat, from: Pc, call: Call, names: seq<nat>)
    requires |names| == |s.pcs|
    decreases |steps|
  {
    c < |s.pcs| && steps != []
    && if |steps| == 1 then s.pcs[c] == from && steps[0] == Step(c, call) else
         var before := steps[..|steps| - 1];
         InCall(s, before, c, from, call, names) && c < |Run(s, before, names).pcs|
         && !Outside(Run(s, before, names).pcs[c])
  }

  /** What the client finds, at each of its steps after the first. */
  ghost function Tests(s: Tree, steps: seq<Step>, c: nat, names: seq<nat>): seq<Tree>
    requires |names| == |s.pcs|
    decreases |steps|
  {
    if |steps| <= 1 then [] else
      var before := steps[..|steps| - 1];
      Tests(s, before, c, names) + if steps[|steps| - 1].client == c then [Run(s, before, names)] else []
  }

  /** Where the client is after the steps. */
  ghost function Place(s: Tree, steps: seq<Step>, c: nat, names: seq<nat>): Pc
    requires |names| == |s.pcs|
  {
    var s' := Run(s, steps, names);
    if c < |s'.pcs| then s'.pcs[c] else Idle
  }

  lemma RunLast(s: Tree, steps: seq<Step>, names: seq<nat>)
    requires |names| == |s.pcs| && steps != []
    ensures var s1 := Run(s, steps[..|steps| - 1], names);
            |s1.pcs| == |names| && Run(s, steps, names) == Next(s1, steps[|steps| - 1], names)
  {
    hide Next;
    var before, last := steps[..|steps| - 1], steps[|steps| - 1];
    assert before + [last] == steps && [last][1..] == [];
    RunAppend(s, before, [last], names);
    var s1 := Run(s, before, names);
    NextLength(s1, last, names);
    assert Run(s1, [last], names) == Run(Next(s1, last, names), [], names);
  }

  lemma {:induction false} RunMutex(s: Tree, steps: seq<Step>, names: seq<nat>)
    requires |names| == |s.pcs| && MutexHeld(s)
    ensures MutexHeld(Run(s, steps, names))
    decreases |steps|
  {
    if steps != [] {
      NextLength(s, steps[0], names);
      NextMutex(s, steps[0], names);
      hide Next, MutexHeld;
      RunMutex(Next(s, steps[0], names), steps[1..], names);
    }
  }

  lemma OthersStay(s: Tree, step: Step, names: seq<nat>)
    requires |names| == |s.pcs|
    ensures forall d :: 0 <= d < |s.pcs| && d != step.client ==>
              d < |Next(s, step, names).pcs| && Next(s, step, names).pcs[d] == s.pcs[d]
  {
    NextLength(s, step, names);
    var c, s' := step.client, Next(s, step, names);
    assert c < |s.pcs| ==> s'.pcs == s.pcs[c := s'.pcs[c]];
  }

  /** One step more: another client leaves it where it is, its own step is a test; inside the mutex it finds it
      held. */
  lemma OneStep(s: Tree, steps: seq<Step>, c: nat, from: Pc, call: Call, names: seq<nat>)
    requires |names| == |s.pcs| && MutexHeld(s) && InCall(s, steps, c, from, call, names) && |steps| > 1
    ensures var before, last := steps[..|steps| - 1], steps[|steps| - 1];
            var s1 := Run(s, before, names);
            InCall(s, before, c, from, call, names) && |s1.pcs| == |names| && c < |s1.pcs|
            && s1.pcs[c] == Place(s, before, c, names) && !Outside(s1.pcs[c]) && (Holds(s1.pcs[c]) ==> s1.mutex)
            && |Next(s1, last, names).pcs| == |names|
            && (last.client != c ==>
                  Place(s, steps, c, names) == s1.pcs[c] && Tests(s, steps, c, names) == Tests(s, before, c, names))
            && (last.client == c ==>
                  Place(s, steps, c, names) == Next(s1, last, names).pcs[c]
                  && Tests(s, steps, c, names) == Tests(s, before, c, names) + [s1])
  {
    RunLast(s, steps, names);
    RunMutex(s, steps[..|steps| - 1], names);
    OthersStay(Run(s, steps[..|steps| - 1], names), steps[|steps| - 1], names);
    NextLength(Run(s, steps[..|steps| - 1], names), steps[|steps| - 1], names);
    hide Next, Run;
  }

  lemma CallMade(s: Tree, steps: seq<Step>, c: nat, from: Pc, call: Call, names: seq<nat>)
    requires |names| == |s.pcs| && InCall(s, steps, c, from, call, names) && |steps| == 1
    ensures Tests(s, steps, c, names) == []
    ensures from == Idle ==> Place(s, steps, c, names) == if call == ReaderLock then ReadMutex else WriteMutex
    ensures from == Reading ==> Place(s, steps, c, names) == DoneMutex
  {
    RunLast(s, steps, names);
    assert steps[..0] == [];
  }

  // ---------------------------------------------------------------- readerLock

  /** Of the tests only the one at `k` found the mutex free. */
  predicate OpenAt(tests: seq<Tree>, k: int)
  {
    0 <= k < |tests| && !tests[k].mutex && forall i :: 0 <= i < |tests| && i != k ==> tests[i].mutex
  }

  predicate AllHeld(tests: seq<Tree>) { forall i :: 0 <= i < |tests| ==> tests[i].mutex }

  lemma OneMoreTest(tests: seq<Tree>, found: Tree)
    ensures AllHeld([])
    ensures AllHeld(tests) ==> if found.mutex then AllHeld(tests + [found]) else OpenAt(tests + [found], |tests|)
    ensures found.mutex ==> forall k :: OpenAt(tests, k) ==> OpenAt(tests + [found], k)
  {
  }

  predicate ReaderAt(p: Pc, tests: seq<Tree>)
  {
    match p
    case ReadMutex => AllHeld(tests)
    case MakeReaders => OpenAt(tests, |tests| - 1)
    case MakeId => OpenAt(tests, |tests| - 2)
    case ReadRelease => OpenAt(tests, |tests| - 3)
    case Reading => OpenAt(tests, |tests| - 4)
    case _ => false
  }

  lemma {:induction false} ReaderPlaces(s: Tree, steps: seq<Step>, c: nat, names: seq<nat>)
    requires |names| == |s.pcs| && MutexHeld(s) && InCall(s, steps, c, Idle, ReaderLock, names)
    ensures ReaderAt(Place(s, steps, c, names), Tests(s, steps, c, names))
    decreases |steps|
  {
    if |steps| == 1 {
      CallMade(s, steps, c, Idle, ReaderLock, names);
      assert AllHeld([]);
    } else {
      OneStep(s, steps, c, Idle, ReaderLock, names);
      ReaderPlaces(s, steps[..|steps| - 1], c, names);
      var s1, last := Run(s, steps[..|steps| - 1], names), steps[|steps| - 1];
      hide Run, InCall, Place, Tests, MutexHeld, ReaderAt, Next;
      if last.client == c { ReaderStep(s1, last, Tests(s, steps[..|steps| - 1], c, names), names); }
    }
  }

  lemma ReaderStep(s: Tree, step: Step, tests: seq<Tree>, names: seq<nat>)
    requires |names| == |s.pcs| && step.client < |s.pcs| && ReaderAt(s.pcs[step.client], tests)
    requires !Outside(s.pcs[step.client]) && (Holds(s.pcs[step.client]) ==> s.mutex)
    ensures var s' := Next(s, step, names); step.client < |s'.pcs| && ReaderAt(s'.pcs[step.client], tests + [s])
  {
    OneMoreTest(tests, s);
    hide OpenAt, AllHeld;
  }

  /** It never comes back without, and reads three steps after the one that found the mutex free. */
  lemma ReaderOutcome(s: Tree, steps: seq<Step>, c: nat, names: seq<nat>)
    requires |names| == |s.pcs| && MutexHeld(s) && InCall(s, steps, c, Idle, ReaderLock, names)
    ensures var p, tests := Place(s, steps, c, names), Tests(s, steps, c, names);
            p != Idle && p != Writing && (p == Reading <==> |tests| >= 4 && !tests[|tests| - 4].mutex)
  {
    ReaderPlaces(s, steps, c, names);
    hide Place, Tests, InCall;
  }

  // ---------------------------------------------------------------- writerLock

  predicate WriterAt(p: Pc, tests: seq<Tree>)
  {
    var n := |tests|;
    match p
    case WriteMutex => n == 0 || (tests[n - 1].mutex && (n == 1 || tests[n - 2].mutex))
    case TestReaders => n > 0 && !tests[n - 1].mutex && (n == 1 || tests[n - 2].mutex)
    case BackOff => n > 1 && !tests[n - 2].mutex && tests[n - 1].mutex && tests[n - 1].readers
    case Writing => n > 1 && !tests[n - 2].mutex && tests[n - 1].mutex && !tests[n - 1].readers
    case _ => false
  }

  lemma {:induction false} WriterPlaces(s: Tree, steps: seq<Step>, c: nat, names: seq<nat>)
    requires |names| == |s.pcs| && MutexHeld(s) && InCall(s, steps, c, Idle, WriterLock, names)
    ensures WriterAt(Place(s, steps, c, names), Tests(s, steps, c, names))
    decreases |steps|
  {
    if |steps| == 1 {
      CallMade(s, steps, c, Idle, WriterLock, names);
    } else {
      OneStep(s, steps, c, Idle, WriterLock, names);
      WriterPlaces(s, steps[..|steps| - 1], c, names);
      hide Run, InCall, Place, Tests, MutexHeld;
    }
  }

  /** It never comes back without: it writes as soon as it has found the mutex free and then no readers. */
  lemma WriterOutcome(s: Tree, steps: seq<Step>, c: nat, names: seq<nat>)
    requires |names| == |s.pcs| && MutexHeld(s) && InCall(s, steps, c, Idle, WriterLock, names)
    ensures var p, tests := Place(s, steps, c, names), Tests(s, steps, c, names);
            var n := |tests|;
            p != Idle && p != Reading
            && (p == Writing <==> n > 1 && !tests[n - 2].mutex && tests[n - 1].mutex && !tests[n - 1].readers)
  {
    WriterPlaces(s, steps, c, names);
    hide Place, Tests, InCall;
  }

  // ---------------------------------------------------------------- readerUnlock

  predicate UnlockAt(p: Pc, tests: seq<Tree>)
  {
    match p
    case DoneMutex => AllHeld(tests)
    case RemoveId => OpenAt(tests, |tests| - 1)
    case CountIds => OpenAt(tests, |tests| - 2)
    case RemoveReaders => OpenAt(tests, |tests| - 3)
    case DoneRelease => OpenAt(tests, |tests| - 3) || OpenAt(tests, |tests| - 4)
    case Idle => OpenAt(tests, |tests| - 4) || OpenAt(tests, |tests| - 5)
    case _ => false
  }

  lemma {:induction false} UnlockPlaces(s: Tree, steps: seq<Step>, c: nat, call: Call, names: seq<nat>)
    requires |names| == |s.pcs| && MutexHeld(s) && InCall(s, steps, c, Reading, call, names)
    ensures UnlockAt(Place(s, steps, c, names), Tests(s, steps, c, names))
    decreases |steps|
  {
    if |steps| == 1 {
      CallMade(s, steps, c, Reading, call, names);
      assert AllHeld([]);
    } else {
      OneStep(s, steps, c, Reading, call, names);
      UnlockPlaces(s, steps[..|steps| - 1], c, call, names);
      var s1, last := Run(s, steps[..|steps| - 1], names), steps[|steps| - 1];
      hide Run, InCall, Place, Tests, MutexHeld, UnlockAt, Next;
      if last.client == c { UnlockStep(s1, last, Tests(s, steps[..|steps| - 1], c, names), names); }
    }
  }

  lemma UnlockStep(s: Tree, step: Step, tests: seq<Tree>, names: seq<nat>)
    requires |names| == |s.pcs| && step.client < |s.pcs| && UnlockAt(s.pcs[step.client], tests)
    requires !Outside(s.pcs[step.client]) && (Holds(s.pcs[step.client]) ==> s.mutex)
    ensures var s' := Next(s, step, names); step.client < |s'.pcs| && UnlockAt(s'.pcs[step.client], tests + [s])
  {
    OneMoreTest(tests, s);
    hide OpenAt, AllHeld;
  }

  /** It ends idle, four or five steps after it has found the mutex free, and nowhere else. */
  lemma UnlockOutcome(s: Tree, steps: seq<Step>, c: nat, call: Call, names: seq<nat>)
    requires |names| == |s.pcs| && MutexHeld(s) && InCall(s, steps, c, Reading, call, names)
    ensures var p, tests := Place(s, steps, c, names), Tests(s, steps, c, names);
            var n := |tests|;
            p != Reading && p != Writing
            && (p == Idle ==> OpenAt(tests, n - 4) || OpenAt(tests, n - 5))
            && (n >= 5 && !tests[n - 5].mutex ==> p == Idle)
  {
    UnlockPlaces(s, steps, c, call, names);
    hide Place, Tests, InCall;
  }

  // ---------------------------------------------------------------- what a call undoes

  /** Alone with the directories, a client that locks and unlocks leaves them as they were. */
  lemma LockAndUnlock(s: Tree, c: nat, names: seq<nat>)
    requires |names| == |s.pcs| && c < |s.pcs| && s.pcs[c] == Idle && !s.mutex && !s.readers && s.ids == {}
    ensures Run(s, Times(Step(c, ReaderLock), 5), names).pcs == s.pcs[c := Reading]
    ensures Run(s, Times(Step(c, ReaderLock), 5) + Times(Step(c, ReaderLock), 6), names) == s
    ensures Run(s, Times(Step(c, WriterLock), 3), names).pcs == s.pcs[c := Writing]
    ensures Run(s, Times(Step(c, WriterLock), 3) + Times(Step(c, WriterLock), 1), names) == s
  {
    hide Run, Times;
    var r, w := Step(c, ReaderLock), Step(c, WriterLock);
    var reading, writing := Tree(false, true, {names[c]}, s.pcs[c := Reading]),
                            s.(mutex := true, pcs := s.pcs[c := Writing]);
    assert s.ids + {names[c]} == {names[c]};
    assert reading.pcs[c := Idle] == s.pcs && writing.pcs[c := Idle] == s.pcs;
    TakeRead(s, c, names);
    DropRead(reading, c, names);
    RunAppend(s, Times(r, 5), Times(r, 6), names);
    TakeWrite(s, c, names);
    RunAppend(s, Times(w, 3), Times(w, 1), names);
    OneOf(writing, w, 1, names);
    NothingLeft(s, w, names);
  }
}
