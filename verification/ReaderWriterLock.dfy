/** The spinning reader/writer lock, one atomic operation per step, any number of threads and any
    interleaving. The counters wrap: `_readers` is a 32-bit number in ReaderWriterLock and a
    16-bit one per entry in MultiReaderWriterLock, so the modulus is a parameter. */
module ReaderWriterLock {
  import opened Arith

  /** The calls an idle thread may make. */
  datatype Call = ReaderLock | TryReaderLock | WriterLock | TryWriterLock | CowardlyTryWriterLock

  /** Where a thread is: the atomic operation it performs next, or the section it is in. */
  datatype Pc =
    | Idle
    | Spin        // readerLock: load _writers
    | Enter       // readerLock: add to _readers
    | Check       // readerLock: load _writers again
    | Leave       // readerLock: take the addition back
    | TrySpin | TryEnter | TryCheck | TryLeave   // the same for tryReaderLock
    | Reading
    | Exchange    // writerLock: exchange 1 into _writers
    | TryExchange // tryWriterLock: the same, giving up if it was 1
    | Wait        // load _readers until it is 0
    | CowardExchange | CowardCheck | CowardRelease // cowardlyTryWriterLock
    | Writing

  datatype Lock = Lock(readers: nat, writers: nat, pcs: seq<Pc>)

  function Init(threads: nat): Lock { Lock(0, 0, seq(threads, i => Idle)) }

  datatype Step = Step(thread: nat, call: Call)

  function Increment(n: nat, modulus: nat): nat
    requires modulus > 0
  {
    if n + 1 >= modulus then 0 else n + 1
  }

  function Decrement(n: nat, modulus: nat): nat
    requires modulus > 0
  {
    if n == 0 then modulus - 1 else n - 1
  }

  /** One step of one thread; `call` is what the thread does next when it is idle. */
  function Next(s: Lock, step: Step, modulus: nat): Lock
    requires modulus > 0
  {
    if step.thread >= |s.pcs| then s else
    var t := step.thread;
    match s.pcs[t]
    case Idle => s.(pcs := s.pcs[t := match step.call
                                      case ReaderLock => Spin
                                      case TryReaderLock => TrySpin
                                      case WriterLock => Exchange
                                      case TryWriterLock => TryExchange
                                      case CowardlyTryWriterLock => CowardExchange])
    case Spin => if s.writers != 0 then s else s.(pcs := s.pcs[t := Enter])
    case Enter => s.(readers := Increment(s.readers, modulus), pcs := s.pcs[t := Check])
    case Check => s.(pcs := s.pcs[t := if s.writers == 0 then Reading else Leave])
    case Leave => s.(readers := Decrement(s.readers, modulus), pcs := s.pcs[t := Spin])
    case TrySpin => s.(pcs := s.pcs[t := if s.writers == 0 then TryEnter else Idle])
    case TryEnter => s.(readers := Increment(s.readers, modulus), pcs := s.pcs[t := TryCheck])
    case TryCheck => s.(pcs := s.pcs[t := if s.writers == 0 then Reading else TryLeave])
    case TryLeave => s.(readers := Decrement(s.readers, modulus), pcs := s.pcs[t := Idle])
    case Reading => s.(readers := Decrement(s.readers, modulus), pcs := s.pcs[t := Idle])
    case Exchange => s.(writers := 1, pcs := s.pcs[t := if s.writers == 1 then Exchange else Wait])
    case TryExchange => s.(writers := 1, pcs := s.pcs[t := if s.writers == 0 then Wait else Idle])
    case Wait => if s.readers != 0 then s else s.(pcs := s.pcs[t := Writing])
    case CowardExchange => s.(writers := 1, pcs := s.pcs[t := if s.writers == 0 then CowardCheck else Idle])
    case CowardCheck => s.(pcs := s.pcs[t := if s.readers != 0 then CowardRelease else Writing])
    case CowardRelease => s.(writers := 0, pcs := s.pcs[t := Idle])
    case Writing => s.(writers := 0, pcs := s.pcs[t := Idle])
  }

  function Run(s: Lock, steps: seq<Step>, modulus: nat): Lock
    requires modulus > 0
    decreases |steps|
  {
    if steps == [] then s else Run(Next(s, steps[0], modulus), steps[1..], modulus)
  }

  // ---------------------------------------------------------------- what is to be kept

  /** A writer in its section is alone. */
  predicate Exclusive(s: Lock)
  {
    forall t, u :: 0 <= t < |s.pcs| && 0 <= u < |s.pcs| && t != u && s.pcs[t] == Writing ==>
                     s.pcs[u] != Writing && s.pcs[u] != Reading
  }

  /** A thread that has added itself to _readers: in its section, or tentatively. */
  predicate Counted(p: Pc) { p in {Check, Leave, TryCheck, TryLeave, Reading} }

  /** A thread whose exchange took the flag. */
  predicate Owner(p: Pc) { p in {Wait, CowardCheck, CowardRelease, Writing} }

  function Count(pcs: seq<Pc>): (n: nat)
    ensures n <= |pcs|
  {
    if pcs == [] then 0 else (if Counted(pcs[0]) then 1 else 0) + Count(pcs[1..])
  }

  /** What every step keeps: the counter counts, the flag is owned by one thread, and no reader is
      in its section while a writer is. */
  ghost predicate Invariant(s: Lock, modulus: nat)
  {
    s.readers < modulus && Count(s.pcs) % modulus == s.readers && s.writers <= 1
    && (s.writers == 1 <==> exists t :: 0 <= t < |s.pcs| && Owner(s.pcs[t]))
    && (forall t, u :: 0 <= t < |s.pcs| && 0 <= u < |s.pcs| && Owner(s.pcs[t]) && Owner(s.pcs[u]) ==> t == u)
    && Exclusive(s)
  }

  lemma {:induction false} CountUpdate(pcs: seq<Pc>, t: nat, p: Pc)
    requires t < |pcs|
    ensures Count(pcs[t := p]) == Count(pcs) - (if Counted(pcs[t]) then 1 else 0) + (if Counted(p) then 1 else 0)
  {
    if t == 0 {
      assert pcs[t := p][1..] == pcs[1..];
    } else {
      assert pcs[t := p][1..] == pcs[1..][t - 1 := p];
      CountUpdate(pcs[1..], t - 1, p);
    }
  }

  lemma {:induction false} CountZero(pcs: seq<Pc>)
    requires Count(pcs) == 0
    ensures forall t :: 0 <= t < |pcs| ==> !Counted(pcs[t])
  {
    if pcs != [] {
      CountZero(pcs[1..]);
      forall t | 0 <= t < |pcs| ensures !Counted(pcs[t]) { if t > 0 { assert pcs[t] == pcs[1..][t - 1]; } }
    }
  }

  lemma {:induction false} CountNotAll(pcs: seq<Pc>, t: nat)
    requires t < |pcs| && !Counted(pcs[t])
    ensures Count(pcs) < |pcs|
  {
    if t > 0 { CountNotAll(pcs[1..], t - 1); }
  }

  lemma InitInvariant(threads: nat, modulus: nat)
    requires modulus > 0
    ensures Invariant(Init(threads), modulus)
  {
    var s := Init(threads);
    CountIdle(s.pcs);
  }

  lemma {:induction false} CountIdle(pcs: seq<Pc>)
    requires forall t :: 0 <= t < |pcs| ==> pcs[t] == Idle
    ensures Count(pcs) == 0
  {
    if pcs != [] { CountIdle(pcs[1..]); }
  }

  /** Moving the counter with the count. */
  lemma CounterMoves(n: nat, c: nat, modulus: nat)
    requires modulus > 0 && n % modulus == c
    ensures (n + 1) % modulus == Increment(c, modulus)
    ensures n > 0 ==> (n - 1) % modulus == Decrement(c, modulus)
  {
    var q := n / modulus;
    assert n == q * modulus + c;
    if c + 1 == modulus {
      assert n + 1 == (q + 1) * modulus;
      ModUnique(n + 1, modulus, q + 1, 0);
    } else {
      ModUnique(n + 1, modulus, q, c + 1);
    }
    if n > 0 {
      if c == 0 {
        assert n - 1 == (q - 1) * modulus + (modulus - 1);
        ModUnique(n - 1, modulus, q - 1, modulus - 1);
      } else {
        ModUnique(n - 1, modulus, q, c - 1);
      }
    }
  }

  // ---------------------------------------------------------------- every step keeps it

  /** The counter moves with the set of counted threads. */
  lemma CounterStep(s: Lock, step: Step, modulus: nat)
    requires modulus > 0 && step.thread < |s.pcs|
    ensures var s', t := Next(s, step, modulus), step.thread;
            t < |s'.pcs| && s'.pcs == s.pcs[t := s'.pcs[t]]
            && s'.readers == if Counted(s'.pcs[t]) == Counted(s.pcs[t]) then s.readers
                             else if Counted(s'.pcs[t]) then Increment(s.readers, modulus)
                             else Decrement(s.readers, modulus)
  {
    var s', t := Next(s, step, modulus), step.thread;
    assert s.pcs[t := s.pcs[t]] == s.pcs;
  }

  lemma NextCounts(s: Lock, step: Step, modulus: nat)
    requires modulus > 0 && s.readers < modulus && Count(s.pcs) % modulus == s.readers
    ensures var s' := Next(s, step, modulus);
            s'.readers < modulus && Count(s'.pcs) % modulus == s'.readers && |s'.pcs| == |s.pcs|
  {
    var t := step.thread;
    if t < |s.pcs| {
      CounterStep(s, step, modulus);
      hide Next, Counted;
      CounterMoves(Count(s.pcs), s.readers, modulus);
      CountUpdate(s.pcs, t, Next(s, step, modulus).pcs[t]);
    }
  }

  /** The flag and its owner. */
  ghost predicate FlagOwned(s: Lock)
  {
    s.writers <= 1
    && (s.writers == 1 <==> exists t :: 0 <= t < |s.pcs| && Owner(s.pcs[t]))
    && (forall t, u :: 0 <= t < |s.pcs| && 0 <= u < |s.pcs| && Owner(s.pcs[t]) && Owner(s.pcs[u]) ==> t == u)
  }

  /** Ownership and the flag change together. */
  lemma OwnerStep(s: Lock, step: Step, modulus: nat)
    requires modulus > 0 && step.thread < |s.pcs| && s.writers <= 1
    requires Owner(s.pcs[step.thread]) ==> s.writers == 1
    ensures var s', t := Next(s, step, modulus), step.thread;
            |s'.pcs| == |s.pcs| && (forall u :: 0 <= u < |s.pcs| && u != t ==> s'.pcs[u] == s.pcs[u])
            && s'.writers <= 1
            && (Owner(s.pcs[t]) ==> (Owner(s'.pcs[t]) <==> s'.writers == 1))
            && (!Owner(s.pcs[t]) && s.writers == 1 ==> s'.writers == 1 && !Owner(s'.pcs[t]))
            && (!Owner(s.pcs[t]) && s.writers == 0 ==> (Owner(s'.pcs[t]) <==> s'.writers == 1))
  {
  }

  lemma NextOwned(s: Lock, step: Step, modulus: nat)
    requires modulus > 0 && FlagOwned(s)
    ensures FlagOwned(Next(s, step, modulus))
  {
    var t := step.thread;
    if t < |s.pcs| {
      var s' := Next(s, step, modulus);
      OwnerStep(s, step, modulus);
      hide Next, Owner;
      if s'.writers == 1 {
        if !Owner(s'.pcs[t]) {
          var u :| 0 <= u < |s.pcs| && Owner(s.pcs[u]);
          assert Owner(s'.pcs[u]);
        }
      }
    }
  }

  /** A step moves one thread, and lets it into a section only after the matching test. */
  lemma NextShape(s: Lock, step: Step, modulus: nat)
    requires modulus > 0
    ensures var s', t := Next(s, step, modulus), step.thread;
            |s'.pcs| == |s.pcs| && (forall u :: 0 <= u < |s.pcs| && u != t ==> s'.pcs[u] == s.pcs[u])
            && (t < |s.pcs| && s'.pcs[t] == Writing && s.pcs[t] != Writing ==>
                  s.readers == 0 && Owner(s.pcs[t]) && !Counted(s.pcs[t]))
            && (t < |s.pcs| && s'.pcs[t] == Reading && s.pcs[t] != Reading ==> s.writers == 0)
  {
  }

  /** Entering a section is safe: with at most `modulus` threads, a zero counter means no readers. */
  lemma NextExclusive(s: Lock, step: Step, modulus: nat)
    requires modulus > 0 && |s.pcs| <= modulus && Invariant(s, modulus)
    ensures Exclusive(Next(s, step, modulus))
  {
    hide Next, Counted;
    NextShape(s, step, modulus);
    var s', t := Next(s, step, modulus), step.thread;
    if t < |s.pcs| && s'.pcs[t] == Writing && s.pcs[t] != Writing {
      CountNotAll(s.pcs, t);
      assert Count(s.pcs) == 0 by { ModUnique(Count(s.pcs), modulus, 0, Count(s.pcs)); }
      CountZero(s.pcs);
      ReadingIsCounted();
      assert forall u :: 0 <= u < |s.pcs| && u != t ==> s'.pcs[u] != Reading && s'.pcs[u] != Writing;
    }
  }

  lemma ReadingIsCounted()
    ensures Counted(Reading) && !Counted(Writing) && Owner(Writing)
  {
  }

  lemma NextKeepsInvariant(s: Lock, step: Step, modulus: nat)
    requires modulus > 0 && |s.pcs| <= modulus && Invariant(s, modulus)
    ensures Invariant(Next(s, step, modulus), modulus)
  {
    NextCounts(s, step, modulus);
    NextOwned(s, step, modulus);
    NextExclusive(s, step, modulus);
  }

  lemma {:induction false} RunKeepsInvariant(s: Lock, steps: seq<Step>, modulus: nat)
    requires modulus > 0 && |s.pcs| <= modulus && Invariant(s, modulus)
    ensures Invariant(Run(s, steps, modulus), modulus)
    decreases |steps|
  {
    if steps != [] {
      NextKeepsInvariant(s, steps[0], modulus);
      NextCounts(s, steps[0], modulus);
      RunKeepsInvariant(Next(s, steps[0], modulus), steps[1..], modulus);
    }
  }

  /** When every thread is idle both counters are back to 0. */
  lemma IdleIsClean(s: Lock, modulus: nat)
    requires modulus > 0 && Invariant(s, modulus)
    requires forall t :: 0 <= t < |s.pcs| ==> s.pcs[t] == Idle
    ensures s.readers == 0 && s.writers == 0
  {
    CountIdle(s.pcs);
  }

  // ---------------------------------------------------------------- and one thread more breaks it

  lemma {:induction false} RunAppend(s: Lock, a: seq<Step>, b: seq<Step>, modulus: nat)
    requires modulus > 0
    ensures Run(s, a + b, modulus) == Run(Run(s, a, modulus), b, modulus)
    decreases |a|
  {
    hide Next;
    if a == [] {
      assert a + b == b;
    } else {
      assert (a + b)[0] == a[0] && (a + b)[1..] == a[1..] + b;
      RunAppend(Next(s, a[0], modulus), a[1..], b, modulus);
    }
  }

  /** `k` threads reading, the others idle. */
  function Readers(k: nat, threads: nat, modulus: nat): Lock
    requires modulus > 0
  {
    Lock(k % modulus, 0, seq(threads, i => if i < k then Reading else Idle))
  }

  function Four(t: nat, call: Call): seq<Step> { [Step(t, call), Step(t, call), Step(t, call), Step(t, call)] }

  /** The next thread takes the reader lock in four steps. */
  lemma OneMoreReader(k: nat, threads: nat, modulus: nat)
    requires modulus > 0 && k < threads
    ensures Run(Readers(k, threads, modulus), Four(k, ReaderLock), modulus) == Readers(k + 1, threads, modulus)
  {
    var s := Readers(k, threads, modulus);
    var p, step := Four(k, ReaderLock), Step(k, ReaderLock);
    CounterMoves(k, k % modulus, modulus);
    var s1, s2, s3, s4 := Next(s, step, modulus), s.(pcs := s.pcs[k := Enter]),
                          s.(readers := (k + 1) % modulus, pcs := s.pcs[k := Check]), Readers(k + 1, threads, modulus);
    assert s1 == s.(pcs := s.pcs[k := Spin]);
    assert Next(s1, step, modulus) == s2;
    assert Next(s2, step, modulus) == s3;
    assert Next(s3, step, modulus) == s4;
    hide Next, Readers;
    assert p[1..] == [step, step, step] && p[1..][1..] == [step, step] && p[1..][1..][1..] == [step];
    assert Run(s3, [step], modulus) == Run(s4, [], modulus);
    assert Run(s2, [step, step], modulus) == Run(s3, [step], modulus);
  }

  lemma {:induction false} ManyReaders(k: nat, threads: nat, modulus: nat) returns (steps: seq<Step>)
    requires modulus > 0 && k <= threads
    ensures Run(Init(threads), steps, modulus) == Readers(k, threads, modulus)
  {
    if k == 0 {
      steps := [];
      ModUnique(0, modulus, 0, 0);
      assert Init(threads) == Readers(0, threads, modulus);
    } else {
      var before := ManyReaders(k - 1, threads, modulus);
      OneMoreReader(k - 1, threads, modulus);
      RunAppend(Init(threads), before, Four(k - 1, ReaderLock), modulus);
      steps := before + Four(k - 1, ReaderLock);
    }
  }

  /** `modulus` readers wrap the counter to 0, and a writer walks in on them. */
  lemma WrappedCounterLetsWriterIn(threads: nat, modulus: nat) returns (steps: seq<Step>)
    requires modulus > 0 && threads > modulus
    ensures !Exclusive(Run(Init(threads), steps, modulus))
  {
    var before := ManyReaders(modulus, threads, modulus);
    ModUnique(modulus, modulus, 1, 0);
    var s, step := Readers(modulus, threads, modulus), Step(modulus, WriterLock);
    var s1, s2, s3 := s.(pcs := s.pcs[modulus := Exchange]), s.(writers := 1, pcs := s.pcs[modulus := Wait]),
                      s.(writers := 1, pcs := s.pcs[modulus := Writing]);
    assert Next(s, step, modulus) == s1 && Next(s1, step, modulus) == s2 && Next(s2, step, modulus) == s3;
    steps := before + [step, step, step];
    RunAppend(Init(threads), before, [step, step, step], modulus);
    assert [step, step, step][1..] == [step, step] && [step, step][1..] == [step];
    assert s3.pcs[modulus] == Writing && s3.pcs[0] == Reading;
    hide Next;
    assert Run(s2, [step], modulus) == Run(s3, [], modulus);
    assert Run(s1, [step, step], modulus) == Run(s2, [step], modulus);
  }

  /** Exclusion holds in every run exactly when the threads do not outnumber the counter. */
  lemma ExclusiveIffThreadsFitCounter(threads: nat, modulus: nat)
    requires modulus > 0
    ensures (forall steps :: Exclusive(Run(Init(threads), steps, modulus))) <==> threads <= modulus
  {
    if threads <= modulus {
      forall steps: seq<Step> ensures Exclusive(Run(Init(threads), steps, modulus)) {
        InitInvariant(threads, modulus);
        RunKeepsInvariant(Init(threads), steps, modulus);
      }
    } else {
      var steps := WrappedCounterLetsWriterIn(threads, modulus);
    }
  }

  // ---------------------------------------------------------------- one lock per entry

  /** MultiReaderWriterLock counts with 16 bits per entry, ReaderWriterLock with 32. */
  const ENTRY_MODULUS := 0x1_0000
  const LOCK_MODULUS := 0x1_0000_0000

  datatype EntryStep = EntryStep(entry: nat, step: Step)

  function MultiNext(locks: seq<Lock>, e: EntryStep): (locks': seq<Lock>)
    ensures |locks'| == |locks|
  {
    if e.entry >= |locks| then locks else locks[e.entry := Next(locks[e.entry], e.step, ENTRY_MODULUS)]
  }

  function MultiRun(locks: seq<Lock>, steps: seq<EntryStep>): (locks': seq<Lock>)
    ensures |locks'| == |locks|
    decreases |steps|
  {
    if steps == [] then locks else MultiRun(MultiNext(locks, steps[0]), steps[1..])
  }

  function StepsOn(entry: nat, steps: seq<EntryStep>): seq<Step>
  {
    if steps == [] then []
    else (if steps[0].entry == entry then [steps[0].step] else []) + StepsOn(entry, steps[1..])
  }

  /** What happens to one entry is a run of the single lock: entries do not interact. */
  lemma {:induction false} EntriesAreIndependent(locks: seq<Lock>, steps: seq<EntryStep>, entry: nat)
    requires entry < |locks|
    ensures MultiRun(locks, steps)[entry] == Run(locks[entry], StepsOn(entry, steps), ENTRY_MODULUS)
    decreases |steps|
  {
    hide Next;
    if steps != [] {
      EntriesAreIndependent(MultiNext(locks, steps[0]), steps[1..], entry);
      if steps[0].entry == entry {
        assert StepsOn(entry, steps)[1..] == StepsOn(entry, steps[1..]);
      } else {
        assert StepsOn(entry, steps) == StepsOn(entry, steps[1..]);
      }
    }
  }

  /** Every entry stays exclusive while at most 65536 threads use the lock. */
  lemma EveryEntryExclusive(entries: nat, threads: nat, steps: seq<EntryStep>, entry: nat)
    requires entry < entries && threads <= ENTRY_MODULUS
    ensures Exclusive(MultiRun(seq(entries, i => Init(threads)), steps)[entry])
  {
    EntriesAreIndependent(seq(entries, i => Init(threads)), steps, entry);
    InitInvariant(threads, ENTRY_MODULUS);
    RunKeepsInvariant(Init(threads), StepsOn(entry, steps), ENTRY_MODULUS);
  }

  /** And the lock without entries while at most 2^32 do. */
  lemma LockExclusive(threads: nat, steps: seq<Step>)
    requires threads <= LOCK_MODULUS
    ensures Exclusive(Run(Init(threads), steps, LOCK_MODULUS))
  {
    InitInvariant(threads, LOCK_MODULUS);
    RunKeepsInvariant(Init(threads), steps, LOCK_MODULUS);
  }
}
