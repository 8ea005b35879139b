/** The reader/writer lock made of directories: one mkdir, rmdir, stat or directory count per step,
    any number of clients and any interleaving. */
module FsReaderWriterLock {

  datatype Call = ReaderLock | WriterLock

  /** What a client does next, or the section it is in. */
  datatype Pc =
    | Idle
    | ReadMutex | MakeReaders | MakeId | ReadRelease            // readerLock
    | Reading
    | DoneMutex | RemoveId | CountIds | RemoveReaders | DoneRelease // readerUnlock
    | WriteMutex | TestReaders | BackOff                        // writerLock
    | Writing

  /** The directory tree: <lock>/mutex/lck, <lock>/readers, and the entries of <lock>/readers. */
  datatype Tree = Tree(mutex: bool, readers: bool, ids: set<nat>, pcs: seq<Pc>)

  function Init(clients: nat): Tree { Tree(false, false, {}, seq(clients, i => Idle)) }

  datatype Step = Step(client: nat, call: Call)

  /** One step of one client; `names[c]` is the directory name client `c` uses. */
  function Next(s: Tree, step: Step, names: seq<nat>): Tree
    requires |names| == |s.pcs|
  {
    if step.client >= |s.pcs| then s else
    var c, id := step.client, names[step.client];
    match s.pcs[c]
    case Idle => s.(pcs := s.pcs[c := if step.call.ReaderLock? then ReadMutex else WriteMutex])
    case ReadMutex => if s.mutex then s else s.(mutex := true, pcs := s.pcs[c := MakeReaders])
    case MakeReaders => s.(readers := true, pcs := s.pcs[c := MakeId])
    case MakeId => s.(ids := if s.readers then s.ids + {id} else s.ids, pcs := s.pcs[c := ReadRelease])
    case ReadRelease => s.(mutex := false, pcs := s.pcs[c := Reading])
    case Reading => s.(pcs := s.pcs[c := DoneMutex])
    case DoneMutex => if s.mutex then s else s.(mutex := true, pcs := s.pcs[c := RemoveId])
    case RemoveId => s.(ids := s.ids - {id}, pcs := s.pcs[c := CountIds])
    case CountIds => s.(pcs := s.pcs[c := if s.readers && |s.ids| + 2 > 2 then DoneRelease else RemoveReaders])
    case RemoveReaders => s.(readers := s.readers && s.ids != {}, pcs := s.pcs[c := DoneRelease])
    case DoneRelease => s.(mutex := false, pcs := s.pcs[c := Idle])
    case WriteMutex => if s.mutex then s else s.(mutex := true, pcs := s.pcs[c := TestReaders])
    case TestReaders => s.(pcs := s.pcs[c := if s.readers then BackOff else Writing])
    case BackOff => s.(mutex := false, pcs := s.pcs[c := WriteMutex])
    case Writing => s.(mutex := false, pcs := s.pcs[c := Idle])
  }

  lemma NextLength(s: Tree, step: Step, names: seq<nat>)
    requires |names| == |s.pcs|
    ensures |Next(s, step, names).pcs| == |s.pcs|
  {
  }

  function Run(s: Tree, steps: seq<Step>, names: seq<nat>): Tree
    requires |names| == |s.pcs|
    decreases |steps|
  {
    if steps == [] then s else
      NextLength(s, steps[0], names);
      Run(Next(s, steps[0], names), steps[1..], names)
  }

  // ---------------------------------------------------------------- what is to be kept

  predicate InReadSection(p: Pc) { p in {Reading, DoneMutex} }

  predicate Exclusive(s: Tree)
  {
    forall c, d :: 0 <= c < |s.pcs| && 0 <= d < |s.pcs| && c != d && s.pcs[c] == Writing ==>
                     s.pcs[d] != Writing && !InReadSection(s.pcs[d])
  }

  /** Inside the mutex directory. A writer stays inside for its whole section. */
  predicate Holds(p: Pc)
  {
    p in {MakeReaders, MakeId, ReadRelease, RemoveId, CountIds, RemoveReaders, DoneRelease, TestReaders, BackOff,
          Writing}
  }

  /** Has its name in the readers directory. */
  predicate Listed(p: Pc) { p in {ReadRelease, Reading, DoneMutex, RemoveId} }

  predicate Distinct(names: seq<nat>)
  {
    forall c, d :: 0 <= c < |names| && 0 <= d < |names| && names[c] == names[d] ==> c == d
  }

  /** What the holder of the mutex knows about the readers directory. */
  predicate Local(p: Pc, readers: bool, ids: set<nat>)
  {
    match p
    case MakeId => readers
    case ReadRelease => readers
    case CountIds => readers
    case RemoveReaders => readers && ids == {}
    case Writing => !readers && ids == {}
    case _ => true
  }

  /** The readers directory may be present and empty only in the middle of a reader's update. */
  predicate Settled(p: Pc) { p !in {MakeId, CountIds, RemoveReaders} }

  /** The mutex directory exists exactly while one client is inside. */
  ghost predicate MutexHeld(s: Tree)
  {
    (s.mutex <==> exists c :: 0 <= c < |s.pcs| && Holds(s.pcs[c]))
    && (forall c, d :: 0 <= c < |s.pcs| && 0 <= d < |s.pcs| && Holds(s.pcs[c]) && Holds(s.pcs[d]) ==> c == d)
  }

  /** The readers directory lists exactly the readers, and exists exactly when it lists one, but
      for the middle of an update. */
  ghost predicate Directory(s: Tree, names: seq<nat>)
    requires |names| == |s.pcs|
  {
    (forall c :: 0 <= c < |s.pcs| ==> (Listed(s.pcs[c]) <==> names[c] in s.ids))
    && (forall n :: n in s.ids ==> n in names)
    && (s.ids != {} ==> s.readers)
    && (forall c :: 0 <= c < |s.pcs| ==> Local(s.pcs[c], s.readers, s.ids))
    && ((forall c :: 0 <= c < |s.pcs| ==> Settled(s.pcs[c])) ==> (s.readers <==> s.ids != {}))
  }

  ghost predicate Invariant(s: Tree, names: seq<nat>)
  {
    |names| == |s.pcs| && MutexHeld(s) && Directory(s, names)
  }

  lemma InitInvariant(clients: nat, names: seq<nat>)
    requires |names| == clients
    ensures Invariant(Init(clients), names)
  {
  }

  // ---------------------------------------------------------------- every step keeps it

  lemma HolderStep(s: Tree, step: Step, names: seq<nat>)
    requires |names| == |s.pcs| && step.client < |s.pcs| && (Holds(s.pcs[step.client]) ==> s.mutex)
    ensures var s', c := Next(s, step, names), step.client;
            |s'.pcs| == |s.pcs| && (forall d :: 0 <= d < |s.pcs| && d != c ==> s'.pcs[d] == s.pcs[d])
            && (Holds(s.pcs[c]) ==> (Holds(s'.pcs[c]) <==> s'.mutex))
            && (!Holds(s.pcs[c]) && s.mutex ==> s'.mutex && !Holds(s'.pcs[c]))
            && (!Holds(s.pcs[c]) && !s.mutex ==> (Holds(s'.pcs[c]) <==> s'.mutex))
  {
  }

  lemma NextMutex(s: Tree, step: Step, names: seq<nat>)
    requires |names| == |s.pcs| && MutexHeld(s)
    ensures MutexHeld(Next(s, step, names))
  {
    var c := step.client;
    if c < |s.pcs| {
      HolderStep(s, step, names);
      hide Next, Holds;
      var s' := Next(s, step, names);
      if s'.mutex && !Holds(s'.pcs[c]) {
        var d :| 0 <= d < |s.pcs| && Holds(s.pcs[d]);
        assert Holds(s'.pcs[d]);
      }
    }
  }

  /** A client changes the readers directory only from inside, and only by its own name. */
  lemma DirectoryStep(s: Tree, step: Step, names: seq<nat>)
    requires |names| == |s.pcs| && step.client < |s.pcs| && Local(s.pcs[step.client], s.readers, s.ids)
    requires Listed(s.pcs[step.client]) <==> names[step.client] in s.ids
    requires s.ids != {} ==> s.readers
    requires Settled(s.pcs[step.client]) && Holds(s.pcs[step.client]) ==> (s.readers <==> s.ids != {})
    ensures var s', c, id := Next(s, step, names), step.client, names[step.client];
            |s'.pcs| == |s.pcs| && (forall d :: 0 <= d < |s.pcs| && d != c ==> s'.pcs[d] == s.pcs[d])
            && s'.ids == (if Listed(s'.pcs[c]) then s.ids + {id} else s.ids - {id})
            && (!Holds(s.pcs[c]) ==>
                  s'.ids == s.ids && s'.readers == s.readers && Settled(s.pcs[c]) && Settled(s'.pcs[c]))
            && (s'.ids != {} ==> s'.readers) && Local(s'.pcs[c], s'.readers, s'.ids)
            && (Holds(s.pcs[c]) && Settled(s'.pcs[c]) ==> (s'.readers <==> s'.ids != {}))
  {
  }

  lemma OnlyHoldersMatter(p: Pc)
    ensures !Holds(p) ==> Settled(p) && forall readers, ids :: Local(p, readers, ids)
  {
  }

  lemma NonHoldersAreSettled(s: Tree)
    ensures forall d :: 0 <= d < |s.pcs| && !Holds(s.pcs[d]) ==>
                          Settled(s.pcs[d]) && forall readers, ids :: Local(s.pcs[d], readers, ids)
  {
    forall d | 0 <= d < |s.pcs| && !Holds(s.pcs[d])
      ensures Settled(s.pcs[d]) && forall readers, ids :: Local(s.pcs[d], readers, ids)
    {
      OnlyHoldersMatter(s.pcs[d]);
    }
  }

  lemma NextListed(s: Tree, s': Tree, c: nat, names: seq<nat>)
    requires |names| == |s.pcs| == |s'.pcs| && c < |names| && Distinct(names)
    requires forall d :: 0 <= d < |s.pcs| && d != c ==> s'.pcs[d] == s.pcs[d]
    requires s'.ids == (if Listed(s'.pcs[c]) then s.ids + {names[c]} else s.ids - {names[c]})
    requires forall d :: 0 <= d < |s.pcs| ==> (Listed(s.pcs[d]) <==> names[d] in s.ids)
    requires forall n :: n in s.ids ==> n in names
    ensures forall d :: 0 <= d < |s.pcs| ==> (Listed(s'.pcs[d]) <==> names[d] in s'.ids)
    ensures forall n :: n in s'.ids ==> n in names
  {
    hide Listed;
    assert names[c] in names;
    forall d | 0 <= d < |s.pcs| ensures Listed(s'.pcs[d]) <==> names[d] in s'.ids {
      if d != c { assert names[d] != names[c]; }
    }
  }

  lemma NextDirectory(s: Tree, step: Step, names: seq<nat>)
    requires Invariant(s, names) && Distinct(names)
    ensures |Next(s, step, names).pcs| == |s.pcs| && Directory(Next(s, step, names), names)
  {
    var c := step.client;
    if c < |s.pcs| {
      NonHoldersAreSettled(s);
      hide Next, Holds, Settled, Local, Listed, Distinct;
      if Settled(s.pcs[c]) && Holds(s.pcs[c]) {
        assert forall d :: 0 <= d < |s.pcs| ==> Settled(s.pcs[d]);
      }
      DirectoryStep(s, step, names);
      NextListed(s, Next(s, step, names), c, names);
    }
  }

  lemma {:induction false} RunKeepsInvariant(s: Tree, steps: seq<Step>, names: seq<nat>)
    requires Invariant(s, names) && Distinct(names)
    ensures Invariant(Run(s, steps, names), names)
    decreases |steps|
  {
    if steps != [] {
      NextMutex(s, steps[0], names);
      NextDirectory(s, steps[0], names);
      RunKeepsInvariant(Next(s, steps[0], names), steps[1..], names);
    }
  }

  /** What a client may rely on from outside. */
  lemma InvariantMeans(s: Tree, names: seq<nat>)
    requires Invariant(s, names)
    ensures Exclusive(s)
    ensures !s.mutex ==> (s.readers <==> exists c :: 0 <= c < |s.pcs| && InReadSection(s.pcs[c]))
  {
    forall c, d | 0 <= c < |s.pcs| && 0 <= d < |s.pcs| && c != d && s.pcs[c] == Writing
      ensures s.pcs[d] != Writing && !InReadSection(s.pcs[d])
    {
      assert Holds(s.pcs[c]) && Local(s.pcs[c], s.readers, s.ids);
    }
    if !s.mutex {
      assert forall c :: 0 <= c < |s.pcs| ==> !Holds(s.pcs[c]) && Settled(s.pcs[c]);
      if s.ids != {} {
        var n :| n in s.ids;
        var c :| 0 <= c < |names| && names[c] == n;
        assert InReadSection(s.pcs[c]);
      }
    }
  }

  // ---------------------------------------------------------------- two clients under one name

  lemma {:induction false} RunAppend(s: Tree, p: seq<Step>, q: seq<Step>, names: seq<nat>)
    requires |names| == |s.pcs|
    ensures |Run(s, p, names).pcs| == |names|
    ensures Run(s, p + q, names) == Run(Run(s, p, names), q, names)
    decreases |p|
  {
    hide Next;
    if p == [] {
      assert p + q == q;
    } else {
      NextLength(s, p[0], names);
      assert (p + q)[1..] == p[1..] + q;
      RunAppend(Next(s, p[0], names), p[1..], q, names);
    }
  }

  function Times(step: Step, k: nat): seq<Step> { if k == 0 then [] else [step] + Times(step, k - 1) }

  lemma OneOf(s: Tree, step: Step, k: nat, names: seq<nat>)
    requires |names| == |s.pcs| && k > 0
    ensures |Next(s, step, names).pcs| == |names|
    ensures Run(s, Times(step, k), names) == Run(Next(s, step, names), Times(step, k - 1), names)
  {
    NextLength(s, step, names);
    assert Times(step, k)[1..] == Times(step, k - 1);
  }

  lemma TakeRead(s: Tree, c: nat, names: seq<nat>)
    requires |names| == |s.pcs| && c < |s.pcs| && s.pcs[c] == Idle && !s.mutex
    ensures Run(s, Times(Step(c, ReaderLock), 5), names) == Tree(false, true, s.ids + {names[c]}, s.pcs[c := Reading])
  {
    hide Run, Times;
    var step, ids := Step(c, ReaderLock), s.ids + {names[c]};
    var s1, s2 := s.(pcs := s.pcs[c := ReadMutex]), s.(mutex := true, pcs := s.pcs[c := MakeReaders]);
    var s3, s4 := Tree(true, true, s.ids, s.pcs[c := MakeId]), Tree(true, true, ids, s.pcs[c := ReadRelease]);
    OneOf(s, step, 5, names);
    assert Next(s, step, names) == s1;
    OneOf(s1, step, 4, names);
    assert Next(s1, step, names) == s2;
    OneOf(s2, step, 3, names);
    assert Next(s2, step, names) == s3;
    OneOf(s3, step, 2, names);
    assert Next(s3, step, names) == s4;
    OneOf(s4, step, 1, names);
    assert Next(s4, step, names) == Tree(false, true, ids, s.pcs[c := Reading]);
    NothingLeft(Next(s4, step, names), step, names);
  }

  lemma NothingLeft(s: Tree, step: Step, names: seq<nat>)
    requires |names| == |s.pcs|
    ensures Run(s, Times(step, 0), names) == s
  {
  }

  /** The last name leaves, and takes the readers directory with it. */
  lemma DropRead(s: Tree, c: nat, names: seq<nat>)
    requires |names| == |s.pcs| && c < |s.pcs| && s.pcs[c] == Reading && !s.mutex && s.readers && s.ids == {names[c]}
    ensures Run(s, Times(Step(c, ReaderLock), 6), names) == Tree(false, false, {}, s.pcs[c := Idle])
  {
    hide Run, Times;
    var step := Step(c, ReaderLock);
    var s1, s2 := s.(pcs := s.pcs[c := DoneMutex]), s.(mutex := true, pcs := s.pcs[c := RemoveId]);
    var s3, s4 := Tree(true, true, {}, s.pcs[c := CountIds]), Tree(true, true, {}, s.pcs[c := RemoveReaders]);
    var s5 := Tree(true, false, {}, s.pcs[c := DoneRelease]);
    OneOf(s, step, 6, names);
    assert Next(s, step, names) == s1;
    OneOf(s1, step, 5, names);
    assert Next(s1, step, names) == s2;
    OneOf(s2, step, 4, names);
    assert Next(s2, step, names) == s3;
    OneOf(s3, step, 3, names);
    assert Next(s3, step, names) == s4;
    OneOf(s4, step, 2, names);
    assert Next(s4, step, names) == s5;
    OneOf(s5, step, 1, names);
    assert Next(s5, step, names) == Tree(false, false, {}, s.pcs[c := Idle]);
    NothingLeft(Next(s5, step, names), step, names);
  }

  lemma TakeWrite(s: Tree, c: nat, names: seq<nat>)
    requires |names| == |s.pcs| && c < |s.pcs| && s.pcs[c] == Idle && !s.mutex && !s.readers
    ensures Run(s, Times(Step(c, WriterLock), 3), names) == s.(mutex := true, pcs := s.pcs[c := Writing])
  {
    hide Run, Times;
    var step := Step(c, WriterLock);
    var s1, s2 := s.(pcs := s.pcs[c := WriteMutex]), s.(mutex := true, pcs := s.pcs[c := TestReaders]);
    OneOf(s, step, 3, names);
    assert Next(s, step, names) == s1;
    OneOf(s1, step, 2, names);
    assert Next(s1, step, names) == s2;
    OneOf(s2, step, 1, names);
    assert Next(s2, step, names) == s.(mutex := true, pcs := s.pcs[c := Writing]);
    NothingLeft(Next(s2, step, names), step, names);
  }

  /** Two readers share a name; the first to leave takes it away, and a writer walks in on the other. */
  lemma SharedNameLetsWriterIn(a: nat, b: nat, names: seq<nat>) returns (steps: seq<Step>)
    requires a < |names| && b < |names| && a != b && names[a] == names[b]
    ensures !Exclusive(Run(Init(|names|), steps, names))
  {
    var s := Init(|names|);
    var p, q, r, w := Times(Step(a, ReaderLock), 5), Times(Step(b, ReaderLock), 5),
                      Times(Step(a, ReaderLock), 6), Times(Step(a, WriterLock), 3);
    steps := p + (q + (r + w));
    hide Run, Times, Next;
    TakeRead(s, a, names);
    RunAppend(s, p, q + (r + w), names);
    assert |s.pcs| == |names|;
    var s1 := Tree(false, true, {names[a]}, s.pcs[a := Reading]);
    assert s.ids + {names[a]} == {names[a]};
    TakeRead(s1, b, names);
    RunAppend(s1, q, r + w, names);
    var s2 := Tree(false, true, {names[a]}, s1.pcs[b := Reading]);
    assert s1.ids + {names[b]} == {names[a]};
    DropRead(s2, a, names);
    RunAppend(s2, r, w, names);
    var s3 := Tree(false, false, {}, s2.pcs[a := Idle]);
    TakeWrite(s3, a, names);
    var last := s3.(mutex := true, pcs := s3.pcs[a := Writing]);
    assert Run(s, steps, names) == last;
    assert last.pcs[a] == Writing && last.pcs[b] == Reading;
  }

  /** Exclusion holds in every run exactly when no two clients use the same name. */
  lemma ExclusiveIffNamesDistinct(names: seq<nat>)
    ensures (forall steps :: Exclusive(Run(Init(|names|), steps, names))) <==> Distinct(names)
  {
    if Distinct(names) {
      forall steps: seq<Step> ensures Exclusive(Run(Init(|names|), steps, names)) {
        InitInvariant(|names|, names);
        RunKeepsInvariant(Init(|names|), steps, names);
        InvariantMeans(Run(Init(|names|), steps, names), names);
      }
    } else {
      var a, b :| 0 <= a < |names| && 0 <= b < |names| && names[a] == names[b] && a != b;
      var steps := SharedNameLetsWriterIn(a, b, names);
    }
  }
}
