/** What the calls of the spinning reader/writer lock come to, for a thread that makes one while any others
    do what they like in between. */
module ReaderWriterCalls {
  import opened ReaderWriterLock

  /** Not in the middle of a call: idle or in a section. */
  predicate Outside(p: Pc) { p == Idle || p == Reading || p == Writing }

  /** Thread `t` makes the call in the first of these steps and is in the middle of it up to the last. */
  ghost predicate InCall(s: Lock, steps: seq<Step>, t: nat, call: Call, modulus: nat)
    requires modulus > 0
    decreases |steps|
  {
    t < |s.pcs| && steps != []
    && if |steps| == 1 then s.pcs[t] == Idle && steps[0] == Step(t, call) else
         var before := steps[..|steps| - 1];
         InCall(s, before, t, call, modulus) && t < |Run(s, before, modulus).pcs|
         && !Outside(Run(s, before, modulus).pcs[t])
  }

  /** What the thread finds, at each of its steps after the first. */
  ghost function Tests(s: Lock, steps: seq<Step>, t: nat, modulus: nat): seq<Lock>
    requires modulus > 0
    decreases |steps|
  {
    if |steps| <= 1 then [] else
      var before := steps[..|steps| - 1];
      Tests(s, before, t, modulus) + if steps[|steps| - 1].thread == t then [Run(s, before, modulus)] else []
  }

  /** Where the thread is after the steps. */
  ghost function Place(s: Lock, steps: seq<Step>, t: nat, modulus: nat): Pc
    requires modulus > 0
  {
    var s' := Run(s, steps, modulus);
    if t < |s'.pcs| then s'.pcs[t] else Idle
  }

  lemma RunLast(s: Lock, steps: seq<Step>, modulus: nat)
    requires modulus > 0 && steps != []
    ensures Run(s, steps, modulus) == Next(Run(s, steps[..|steps| - 1], modulus), steps[|steps| - 1], modulus)
  {
    hide Next;
    var before, last := steps[..|steps| - 1], steps[|steps| - 1];
    assert before + [last] == steps && [last][1..] == [];
    RunAppend(s, before, [last], modulus);
    var s1 := Run(s, before, modulus);
    assert Run(s1, [last], modulus) == Run(Next(s1, last, modulus), [], modulus);
  }

  /** One step more: another thread leaves it where it is, its own step is a test. */
  lemma OneStep(s: Lock, steps: seq<Step>, t: nat, call: Call, modulus: nat)
    requires modulus > 0 && InCall(s, steps, t, call, modulus) && |steps| > 1
    ensures var before, last := steps[..|steps| - 1], steps[|steps| - 1];
            var s1 := Run(s, before, modulus);
            InCall(s, before, t, call, modulus) && !Outside(Place(s, before, t, modulus)) && t < |s1.pcs|
            && (last.thread != t ==>
                  Place(s, steps, t, modulus) == Place(s, before, t, modulus)
                  && Tests(s, steps, t, modulus) == Tests(s, before, t, modulus))
            && (last.thread == t ==>
                  Place(s, steps, t, modulus) == Next(s1, last, modulus).pcs[t]
                  && Tests(s, steps, t, modulus) == Tests(s, before, t, modulus) + [s1])
  {
    RunLast(s, steps, modulus);
    NextShape(Run(s, steps[..|steps| - 1], modulus), steps[|steps| - 1], modulus);
    hide Next, Run;
  }

  lemma CallMade(s: Lock, steps: seq<Step>, t: nat, call: Call, modulus: nat)
    requires modulus > 0 && InCall(s, steps, t, call, modulus) && |steps| == 1
    ensures Tests(s, steps, t, modulus) == []
    ensures Place(s, steps, t, modulus) == match call
                                           case ReaderLock => Spin
                                           case TryReaderLock => TrySpin
                                           case WriterLock => Exchange
                                           case TryWriterLock => TryExchange
                                           case CowardlyTryWriterLock => CowardExchange
  {
    RunLast(s, steps, modulus);
    assert steps[..0] == [];
  }

  // ---------------------------------------------------------------- tryReaderLock

  predicate TryReaderAt(p: Pc, tests: seq<Lock>)
  {
    match |tests|
    case 0 => p == TrySpin
    case 1 => p == if tests[0].writers == 0 then TryEnter else Idle
    case 2 => p == TryCheck && tests[0].writers == 0
    case 3 => p == (if tests[2].writers == 0 then Reading else TryLeave) && tests[0].writers == 0
    case 4 => p == Idle && tests[0].writers == 0 && tests[2].writers != 0
    case _ => false
  }

  lemma {:induction false} TryReaderPlaces(s: Lock, steps: seq<Step>, t: nat, modulus: nat)
    requires modulus > 0 && InCall(s, steps, t, TryReaderLock, modulus)
    ensures TryReaderAt(Place(s, steps, t, modulus), Tests(s, steps, t, modulus))
    decreases |steps|
  {
    if |steps| == 1 {
      CallMade(s, steps, t, TryReaderLock, modulus);
    } else {
      OneStep(s, steps, t, TryReaderLock, modulus);
      TryReaderPlaces(s, steps[..|steps| - 1], t, modulus);
      hide Run, InCall, Place, Tests;
    }
  }

  /** It reads when both its tests of the flag, the first and the third of its steps, found it clear, and comes
      back without only when one did not; one or the other within four steps. */
  lemma TryReaderOutcome(s: Lock, steps: seq<Step>, t: nat, modulus: nat)
    requires modulus > 0 && InCall(s, steps, t, TryReaderLock, modulus)
    ensures var p, tests := Place(s, steps, t, modulus), Tests(s, steps, t, modulus);
            |tests| <= 4 && p != Writing
            && (p == Reading <==> |tests| == 3 && tests[0].writers == 0 && tests[2].writers == 0)
            && (p == Idle <==> (|tests| == 1 && tests[0].writers != 0) || (|tests| == 4 && tests[2].writers != 0))
            && (|tests| == 4 ==> p == Idle)
  {
    TryReaderPlaces(s, steps, t, modulus);
    hide Place, Tests, InCall;
  }

  // ---------------------------------------------------------------- tryWriterLock

  predicate TryWriterAt(p: Pc, tests: seq<Lock>)
  {
    if |tests| == 0 then p == TryExchange
    else if tests[0].writers != 0 then |tests| == 1 && p == Idle
    else p == if |tests| > 1 && tests[|tests| - 1].readers == 0 then Writing else Wait
  }

  lemma {:induction false} TryWriterPlaces(s: Lock, steps: seq<Step>, t: nat, modulus: nat)
    requires modulus > 0 && InCall(s, steps, t, TryWriterLock, modulus)
    ensures TryWriterAt(Place(s, steps, t, modulus), Tests(s, steps, t, modulus))
    decreases |steps|
  {
    if |steps| == 1 {
      CallMade(s, steps, t, TryWriterLock, modulus);
    } else {
      OneStep(s, steps, t, TryWriterLock, modulus);
      TryWriterPlaces(s, steps[..|steps| - 1], t, modulus);
      hide Run, InCall, Place, Tests;
    }
  }

  /** It comes back without exactly when its exchange found the flag set; otherwise it writes as soon as it finds
      no reader counted. */
  lemma TryWriterOutcome(s: Lock, steps: seq<Step>, t: nat, modulus: nat)
    requires modulus > 0 && InCall(s, steps, t, TryWriterLock, modulus)
    ensures var p, tests := Place(s, steps, t, modulus), Tests(s, steps, t, modulus);
            p != Reading && (p == Idle <==> |tests| >= 1 && tests[0].writers != 0)
            && (p == Writing <==> |tests| >= 2 && tests[0].writers == 0 && tests[|tests| - 1].readers == 0)
  {
    TryWriterPlaces(s, steps, t, modulus);
    hide Place, Tests, InCall;
  }

  // ---------------------------------------------------------------- cowardlyTryWriterLock

  predicate CowardAt(p: Pc, tests: seq<Lock>)
  {
    match |tests|
    case 0 => p == CowardExchange
    case 1 => p == if tests[0].writers == 0 then CowardCheck else Idle
    case 2 => p == (if tests[1].readers == 0 then Writing else CowardRelease) && tests[0].writers == 0
    case 3 => p == Idle && tests[0].writers == 0 && tests[1].readers != 0
    case _ => false
  }

  lemma {:induction false} CowardPlaces(s: Lock, steps: seq<Step>, t: nat, modulus: nat)
    requires modulus > 0 && InCall(s, steps, t, CowardlyTryWriterLock, modulus)
    ensures CowardAt(Place(s, steps, t, modulus), Tests(s, steps, t, modulus))
    decreases |steps|
  {
    if |steps| == 1 {
      CallMade(s, steps, t, CowardlyTryWriterLock, modulus);
    } else {
      OneStep(s, steps, t, CowardlyTryWriterLock, modulus);
      CowardPlaces(s, steps[..|steps| - 1], t, modulus);
      hide Run, InCall, Place, Tests;
    }
  }

  /** It writes exactly when the flag was clear at its exchange and no reader was counted at its check. */
  lemma CowardOutcome(s: Lock, steps: seq<Step>, t: nat, modulus: nat)
    requires modulus > 0 && InCall(s, steps, t, CowardlyTryWriterLock, modulus)
    ensures var p, tests := Place(s, steps, t, modulus), Tests(s, steps, t, modulus);
            |tests| <= 3 && p != Reading
            && (p == Writing <==> |tests| == 2 && tests[0].writers == 0 && tests[1].readers == 0)
            && (p == Idle <==> (|tests| == 1 && tests[0].writers != 0) || |tests| == 3)
            && (|tests| == 3 ==> tests[1].readers != 0)
  {
    CowardPlaces(s, steps, t, modulus);
    hide Place, Tests, InCall;
  }

  // ---------------------------------------------------------------- writerLock

  /** A test found the flag clear, so the exchange took it. */
  predicate SomeFree(tests: seq<Lock>) { exists k :: 0 <= k < |tests| && tests[k].writers != 1 }

  predicate WriterAt(p: Pc, tests: seq<Lock>)
  {
    if !SomeFree(tests) then p == Exchange
    else if SomeFree(tests[..|tests| - 1]) && tests[|tests| - 1].readers == 0 then p == Writing
    else p == Wait
  }

  lemma OneMoreTest(tests: seq<Lock>, found: Lock)
    ensures SomeFree(tests + [found]) <==> SomeFree(tests) || found.writers != 1
    ensures (tests + [found])[..|tests|] == tests
  {
    if SomeFree(tests) {
      var k :| 0 <= k < |tests| && tests[k].writers != 1;
      assert (tests + [found])[k].writers != 1;
    }
    assert (tests + [found])[|tests|] == found;
  }

  lemma {:induction false} WriterPlaces(s: Lock, steps: seq<Step>, t: nat, modulus: nat)
    requires modulus > 0 && InCall(s, steps, t, WriterLock, modulus)
    ensures WriterAt(Place(s, steps, t, modulus), Tests(s, steps, t, modulus))
    decreases |steps|
  {
    if |steps| == 1 {
      CallMade(s, steps, t, WriterLock, modulus);
    } else {
      OneStep(s, steps, t, WriterLock, modulus);
      WriterPlaces(s, steps[..|steps| - 1], t, modulus);
      OneMoreTest(Tests(s, steps[..|steps| - 1], t, modulus), Run(s, steps[..|steps| - 1], modulus));
      hide Run, InCall, Place, Tests, SomeFree;
    }
  }

  /** It never comes back without: it writes as soon as it finds no reader counted after it has found the flag
      clear. */
  lemma WriterOutcome(s: Lock, steps: seq<Step>, t: nat, modulus: nat)
    requires modulus > 0 && InCall(s, steps, t, WriterLock, modulus)
    ensures var p, tests := Place(s, steps, t, modulus), Tests(s, steps, t, modulus);
            p != Idle && p != Reading
            && (p == Writing <==>
                  |tests| > 0 && SomeFree(tests[..|tests| - 1]) && tests[|tests| - 1].readers == 0)
  {
    WriterPlaces(s, steps, t, modulus);
    var tests := Tests(s, steps, t, modulus);
    if tests != [] {
      OneMoreTest(tests[..|tests| - 1], tests[|tests| - 1]);
      assert tests[..|tests| - 1] + [tests[|tests| - 1]] == tests;
    }
    hide Place, Tests, InCall, SomeFree;
  }

  // ---------------------------------------------------------------- readerLock

  /** How many of the last tests found the flag clear. */
  ghost function Quiet(tests: seq<Lock>): nat
  {
    if tests == [] || tests[|tests| - 1].writers != 0 then 0 else 1 + Quiet(tests[..|tests| - 1])
  }

  lemma QuietMore(tests: seq<Lock>, found: Lock)
    ensures Quiet(tests + [found]) == if found.writers == 0 then 1 + Quiet(tests) else 0
  {
    assert (tests + [found])[..|tests|] == tests;
  }

  predicate ReaderAt(p: Pc, quiet: nat)
  {
    match p
    case Spin => quiet <= 1
    case Enter => 1 <= quiet <= 2
    case Check => quiet <= 3
    case Leave => quiet == 0
    case Reading => quiet >= 1
    case _ => false
  }

  lemma ReaderStep(s: Lock, step: Step, quiet: nat, modulus: nat)
    requires modulus > 0 && step.thread < |s.pcs| && ReaderAt(s.pcs[step.thread], quiet)
    requires !Outside(s.pcs[step.thread])
    ensures |Next(s, step, modulus).pcs| == |s.pcs|
    ensures ReaderAt(Next(s, step, modulus).pcs[step.thread], if s.writers == 0 then 1 + quiet else 0)
  {
  }

  lemma {:induction false} ReaderPlaces(s: Lock, steps: seq<Step>, t: nat, modulus: nat)
    requires modulus > 0 && InCall(s, steps, t, ReaderLock, modulus)
    ensures ReaderAt(Place(s, steps, t, modulus), Quiet(Tests(s, steps, t, modulus)))
    decreases |steps|
  {
    if |steps| == 1 {
      CallMade(s, steps, t, ReaderLock, modulus);
      assert Quiet([]) == 0;
    } else {
      OneStep(s, steps, t, ReaderLock, modulus);
      ReaderPlaces(s, steps[..|steps| - 1], t, modulus);
      hide Run, InCall, Place, Tests, Quiet;
      var s1 := Run(s, steps[..|steps| - 1], modulus);
      QuietMore(Tests(s, steps[..|steps| - 1], t, modulus), s1);
      if steps[|steps| - 1].thread == t {
        ReaderStep(s1, steps[|steps| - 1], Quiet(Tests(s, steps[..|steps| - 1], t, modulus)), modulus);
      }
    }
  }

  /** It never comes back without: it reads only after a test that found the flag clear, and does when four in a
      row have. */
  lemma ReaderOutcome(s: Lock, steps: seq<Step>, t: nat, modulus: nat)
    requires modulus > 0 && InCall(s, steps, t, ReaderLock, modulus)
    ensures var p, tests := Place(s, steps, t, modulus), Tests(s, steps, t, modulus);
            p != Idle && p != Writing && (p == Reading ==> |tests| > 0 && tests[|tests| - 1].writers == 0)
            && (Quiet(tests) >= 4 ==> p == Reading)
  {
    ReaderPlaces(s, steps, t, modulus);
    hide Place, Tests, InCall;
  }

  // ---------------------------------------------------------------- what a call undoes

  /** `n` steps of a thread, the first of which makes the call. */
  function Times(t: nat, call: Call, n: nat): (steps: seq<Step>)
    ensures |steps| == n
  {
    if n == 0 then [] else [Step(t, call)] + Times(t, call, n - 1)
  }

  lemma TimesNext(s: Lock, t: nat, call: Call, n: nat, modulus: nat)
    requires modulus > 0 && n > 0
    ensures Run(s, Times(t, call, n), modulus) == Run(Next(s, Step(t, call), modulus), Times(t, call, n - 1), modulus)
  {
    hide Next;
    assert Times(t, call, n)[1..] == Times(t, call, n - 1);
  }

  /** The section a call is for, and how many steps it takes undisturbed. */
  function SectionOf(call: Call): Pc { if call.ReaderLock? || call.TryReaderLock? then Reading else Writing }

  function StepsOf(call: Call): nat { if call.ReaderLock? || call.TryReaderLock? then 4 else 3 }

  /** Four steps of a reader's call on a lock without a writer, and a fifth. */
  lemma ReaderSteps(s: Lock, t: nat, call: Call, modulus: nat)
    requires modulus > 0 && t < |s.pcs| && s.pcs[t] == Idle && s.readers < modulus && s.writers == 0
    requires SectionOf(call) == Reading
    ensures var s4 := s.(readers := Increment(s.readers, modulus), pcs := s.pcs[t := Reading]);
            Run(s, Times(t, call, 4), modulus) == s4 && Run(s, Times(t, call, 5), modulus) == s
  {
    var x := Step(t, call);
    var s1, n := Next(s, x, modulus), Increment(s.readers, modulus);
    var s2 := Next(s1, x, modulus);
    var s3 := Next(s2, x, modulus);
    var s4 := s.(readers := n, pcs := s.pcs[t := Reading]);
    assert Next(s3, x, modulus) == s4;
    assert Next(s4, x, modulus) == s by { assert s.pcs[t := Idle] == s.pcs; }
    FiveSteps(s, s1, s2, s3, s4, s, t, call, modulus);
  }

  /** Three steps of a writer's call on a free lock, and a fourth. */
  lemma WriterSteps(s: Lock, t: nat, call: Call, modulus: nat)
    requires modulus > 0 && t < |s.pcs| && s.pcs[t] == Idle && s.readers == 0 && s.writers == 0
    requires SectionOf(call) == Writing
    ensures var s3 := s.(writers := 1, pcs := s.pcs[t := Writing]);
            Run(s, Times(t, call, 3), modulus) == s3 && Run(s, Times(t, call, 4), modulus) == s
  {
    var x := Step(t, call);
    var s1 := Next(s, x, modulus);
    var s2 := Next(s1, x, modulus);
    var s3 := s.(writers := 1, pcs := s.pcs[t := Writing]);
    assert Next(s2, x, modulus) == s3;
    assert Next(s3, x, modulus) == s by { assert s.pcs[t := Idle] == s.pcs; }
    FiveSteps(s, s1, s2, s3, s, Next(s, x, modulus), t, call, modulus);
  }

  lemma FiveSteps(s: Lock, s1: Lock, s2: Lock, s3: Lock, s4: Lock, s5: Lock, t: nat, call: Call, modulus: nat)
    requires modulus > 0 && var x := Step(t, call);
             Next(s, x, modulus) == s1 && Next(s1, x, modulus) == s2 && Next(s2, x, modulus) == s3
             && Next(s3, x, modulus) == s4 && Next(s4, x, modulus) == s5
    ensures Run(s, Times(t, call, 3), modulus) == s3 && Run(s, Times(t, call, 4), modulus) == s4
    ensures Run(s, Times(t, call, 5), modulus) == s5
  {
    hide Next;
    forall n: nat | 3 <= n <= 5 ensures Run(s, Times(t, call, n), modulus) == Run(s3, Times(t, call, n - 3), modulus) {
      TimesNext(s, t, call, n, modulus);
      TimesNext(s1, t, call, n - 1, modulus);
      TimesNext(s2, t, call, n - 2, modulus);
    }
    TimesNext(s3, t, call, 1, modulus);
    TimesNext(s3, t, call, 2, modulus);
    TimesNext(s4, t, call, 1, modulus);
  }

  /** On a free lock every call enters its section, and leaving it restores the lock. */
  lemma CallAndUnlock(s: Lock, t: nat, call: Call, modulus: nat)
    requires modulus > 0 && t < |s.pcs| && s.pcs[t] == Idle && s.readers < modulus && s.writers == 0
    requires SectionOf(call) == Writing ==> s.readers == 0
    ensures var n := StepsOf(call);
            Run(s, Times(t, call, n), modulus).pcs == s.pcs[t := SectionOf(call)]
            && Run(s, Times(t, call, n + 1), modulus) == s
  {
    hide Run, Times;
    if SectionOf(call) == Reading { ReaderSteps(s, t, call, modulus); } else { WriterSteps(s, t, call, modulus); }
  }
}
