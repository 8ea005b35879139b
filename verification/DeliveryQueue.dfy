/** How the messages of one uncompressed output file leave: a priority queue, any number of pool
    threads that sleep while it is empty, and a task that goes back into the queue when it is not its turn.
    One queue operation, one wake-up, one load or one fetch_add per step, in any interleaving. */
module DeliveryQueue {
  import opened Arith

  /** A queue entry: the sequence number is the priority, smaller first. */
  datatype Task = Task(num: nat, stamp: nat)

  /** A pool thread: at the top of its loop, waiting on the condition variable, woken from that, about to
      notify after queueing a task again, or with the task for a number. */
  datatype Worker = Idle | Asleep | Woken | Notifying | Checking(num: nat) | Sending(num: nat) | Sent(num: nat)

  predicate Loaded(w: Worker) { w.Checking? || w.Sending? || w.Sent? }

  /** The thread that writes: it has drawn a number and not yet queued its message, or queued and not yet
      notified. */
  datatype Producer = Free | Drawn(num: nat) | Queueing

  /** The thread in close's wait loop, between its two loads, which come in either order, or after them. */
  datatype Closer = Waiting | LoadedSeq(num: nat) | LoadedSend(num: nat) | Done(num: nat)

  datatype Pool = Pool(queue: set<Task>, index: nat, workers: seq<Worker>, seqNum: nat, sendNum: nat,
                       producer: Producer, closer: Closer, log: seq<nat>)

  /** `wakes` is the thread a notification reaches. */
  datatype Step = Draw | Enqueue | Notify(wakes: nat) | Pop(worker: nat, task: Task) | Work(worker: nat, wakes: nat)
                | Spurious(worker: nat) | LoadSeqNum | LoadSendNum

  function Init(threads: nat): Pool { Pool({}, 0, seq(threads, i => Idle), 0, 0, Free, Waiting, []) }

  /** The order of the priority queue. */
  predicate Before(t: Task, u: Task) { t.num < u.num || (t.num == u.num && t.stamp <= u.stamp) }

  predicate Top(queue: set<Task>, t: Task) { t in queue && forall u :: u in queue ==> Before(t, u) }

  function AddTask(s: Pool, num: nat): Pool
  {
    s.(queue := s.queue + {Task(num, s.index)}, index := s.index + 1)
  }

  predicate Sleeps(workers: seq<Worker>, v: nat) { v < |workers| && workers[v].Asleep? }

  predicate NoneAsleep(workers: seq<Worker>) { forall v :: 0 <= v < |workers| ==> !workers[v].Asleep? }

  /** notify_one reaches one sleeping thread, any one, if there is one. */
  predicate MayWake(workers: seq<Worker>, v: nat) { Sleeps(workers, v) || NoneAsleep(workers) }

  function WakeOne(workers: seq<Worker>, v: nat): (woken: seq<Worker>)
    ensures |woken| == |workers|
  {
    if Sleeps(workers, v) then workers[v := Woken] else workers
  }

  /** Thread `w` puts `x` behind it. */
  function Becomes(s: Pool, w: nat, x: Worker): Pool
    requires w < |s.workers|
  {
    s.(workers := s.workers[w := x])
  }

  /** A pool thread goes on, with the queue empty if it is looking for work. */
  function WorkOn(s: Pool, w: nat, wakes: nat): Pool
    requires w < |s.workers|
  {
    match s.workers[w]
    case Idle => if s.queue == {} then Becomes(s, w, Asleep) else s
    case Asleep => s
    case Woken => if s.queue == {} then Becomes(s, w, Idle) else s
    case Notifying =>
      if MayWake(s.workers, wakes) then Becomes(s.(workers := WakeOne(s.workers, wakes)), w, Idle) else s
    case Checking(n) =>
      if n == s.sendNum then Becomes(s, w, Sending(n)) else Becomes(AddTask(s, n), w, Notifying)
    case Sending(n) => Becomes(s, w, Sent(n)).(log := s.log + [n])
    case Sent(n) => Becomes(s, w, Idle).(sendNum := s.sendNum + 1)
  }

  function Next(s: Pool, step: Step): Pool
  {
    match step
    case Draw => if s.producer.Free? then s.(producer := Drawn(s.seqNum), seqNum := s.seqNum + 1) else s
    case Enqueue => if s.producer.Drawn? then AddTask(s, s.producer.num).(producer := Queueing) else s
    case Notify(v) =>
      if s.producer.Queueing? && MayWake(s.workers, v) then s.(workers := WakeOne(s.workers, v), producer := Free)
      else s
    case Pop(w, t) =>
      if w < |s.workers| && (s.workers[w].Idle? || s.workers[w].Woken?) && Top(s.queue, t)
      then Becomes(s, w, Checking(t.num)).(queue := s.queue - {t})
      else s
    case Work(w, v) => if w < |s.workers| then WorkOn(s, w, v) else s
    case Spurious(w) => if Sleeps(s.workers, w) then Becomes(s, w, Woken) else s
    case LoadSeqNum =>
      if s.closer.Waiting? then s.(closer := LoadedSeq(s.seqNum))
      else if s.closer.LoadedSend? then s.(closer := if s.closer.num == s.seqNum then Done(s.closer.num) else Waiting)
      else s
    case LoadSendNum =>
      if s.closer.Waiting? then s.(closer := LoadedSend(s.sendNum))
      else if s.closer.LoadedSeq? then s.(closer := if s.closer.num == s.sendNum then Done(s.closer.num) else Waiting)
      else s
  }

  function Run(s: Pool, steps: seq<Step>): Pool
    decreases |steps|
  {
    if steps == [] then s else Run(Next(s, steps[0]), steps[1..])
  }

  // ---------------------------------------------------------------- where each number is

  ghost predicate Queued(queue: set<Task>, n: nat) { exists t :: t in queue && t.num == n }

  predicate Carries(w: Worker, n: nat) { Loaded(w) && w.num == n }

  ghost predicate InFlight(workers: seq<Worker>, n: nat) { exists w :: 0 <= w < |workers| && Carries(workers[w], n) }

  ghost predicate Pending(s: Pool, n: nat)
  {
    Queued(s.queue, n) || InFlight(s.workers, n) || s.producer == Drawn(n)
  }

  /** No number is in two places. */
  ghost predicate QueuedOnce(queue: set<Task>)
  {
    forall t, u :: t in queue && u in queue && t.num == u.num ==> t == u
  }

  ghost predicate CarriedOnce(workers: seq<Worker>)
  {
    forall v, w, n: nat :: 0 <= v < |workers| && 0 <= w < |workers| && Carries(workers[v], n) && Carries(workers[w], n)
      ==> v == w
  }

  ghost predicate Once(s: Pool)
  {
    QueuedOnce(s.queue) && CarriedOnce(s.workers)
    && (forall n: nat :: Queued(s.queue, n) ==> !InFlight(s.workers, n))
    && (s.producer.Drawn? ==> !Queued(s.queue, s.producer.num) && !InFlight(s.workers, s.producer.num))
  }

  /** What has been drawn and not yet acknowledged is pending. */
  ghost predicate Window(s: Pool)
  {
    s.sendNum <= s.seqNum && forall n: nat :: Pending(s, n) <==> s.sendNum <= n < s.seqNum
  }

  /** Only the number whose turn it is gets sent. */
  predicate InTurn(w: Worker, sendNum: nat) { (w.Sending? || w.Sent?) ==> w.num == sendNum }

  ghost predicate AnySent(workers: seq<Worker>) { exists w :: 0 <= w < |workers| && workers[w].Sent? }

  /** The sends so far were 0, 1, 2, ... */
  predicate InOrder(log: seq<nat>) { forall i :: 0 <= i < |log| ==> log[i] == i }

  /** What close's wait loop has seen. */
  predicate Seen(s: Pool)
  {
    (s.closer.LoadedSeq? ==> s.closer.num <= s.seqNum)
    && (s.closer.LoadedSend? || s.closer.Done? ==> s.closer.num <= s.sendNum)
  }

  predicate AllAsleep(workers: seq<Worker>) { forall v :: 0 <= v < |workers| ==> workers[v].Asleep? }

  /** While there is work, not all threads are asleep, unless a wake-up is under way. */
  predicate Wakeful(s: Pool)
  {
    s.queue != {} && AllAsleep(s.workers) && s.workers != [] ==> s.producer.Queueing?
  }

  ghost predicate Invariant(s: Pool)
  {
    Wakeful(s) && Once(s) && Window(s)
    && (forall w :: 0 <= w < |s.workers| ==> InTurn(s.workers[w], s.sendNum))
    && InOrder(s.log) && |s.log| == (if AnySent(s.workers) then s.sendNum + 1 else s.sendNum)
    && Seen(s)
  }

  lemma InitInvariant(threads: nat)
    ensures Invariant(Init(threads))
  {
  }

  // ---------------------------------------------------------------- one move at a time

  lemma Add(queue: set<Task>, t: Task)
    ensures forall n: nat :: Queued(queue + {t}, n) <==> Queued(queue, n) || n == t.num
    ensures QueuedOnce(queue) && !Queued(queue, t.num) ==> QueuedOnce(queue + {t})
  {
    forall n: nat ensures Queued(queue + {t}, n) <==> Queued(queue, n) || n == t.num {
      if Queued(queue, n) {
        var u :| u in queue && u.num == n;
        assert u in queue + {t};
      }
      assert t in queue + {t};
    }
  }

  lemma Remove(queue: set<Task>, t: Task)
    requires QueuedOnce(queue) && t in queue
    ensures Queued(queue, t.num) && QueuedOnce(queue - {t})
    ensures forall n: nat :: Queued(queue - {t}, n) <==> Queued(queue, n) && n != t.num
  {
    forall n: nat ensures Queued(queue - {t}, n) <==> Queued(queue, n) && n != t.num {
      if Queued(queue, n) && n != t.num {
        var u :| u in queue && u.num == n;
        assert u in queue - {t};
      }
    }
  }

  /** A worker picks up a number nobody has. */
  lemma PickUp(workers: seq<Worker>, w: nat, x: Worker)
    requires w < |workers| && !Loaded(workers[w]) && Loaded(x) && CarriedOnce(workers) && !InFlight(workers, x.num)
    ensures CarriedOnce(workers[w := x])
    ensures forall n: nat :: InFlight(workers[w := x], n) <==> InFlight(workers, n) || n == x.num
  {
    forall n: nat ensures InFlight(workers[w := x], n) <==> InFlight(workers, n) || n == x.num {
      assert Carries(workers[w := x][w], x.num);
      if InFlight(workers, n) {
        var v :| 0 <= v < |workers| && Carries(workers[v], n);
        assert Carries(workers[w := x][v], n);
      }
    }
  }

  /** A worker that carries a number goes on with it, or is rid of it. */
  lemma Change(workers: seq<Worker>, w: nat, x: Worker)
    requires w < |workers| && Loaded(workers[w]) && CarriedOnce(workers)
    requires Loaded(x) ==> x.num == workers[w].num
    ensures InFlight(workers, workers[w].num) && CarriedOnce(workers[w := x])
    ensures forall n: nat :: InFlight(workers[w := x], n) <==>
                             InFlight(workers, n) && (n != workers[w].num || Loaded(x))
  {
    assert Carries(workers[w], workers[w].num);
    forall n: nat
      ensures InFlight(workers[w := x], n) <==> InFlight(workers, n) && (n != workers[w].num || Loaded(x))
    {
      if InFlight(workers, n) && (n != workers[w].num || Loaded(x)) {
        var v :| 0 <= v < |workers| && Carries(workers[v], n);
        assert Carries(workers[w := x][v], n);
      }
    }
  }

  /** A worker that carries nothing turns around, sleeps or wakes. */
  lemma Turn(workers: seq<Worker>, w: nat, x: Worker)
    requires w < |workers| && !Loaded(workers[w]) && !Loaded(x)
    ensures CarriedOnce(workers) ==> CarriedOnce(workers[w := x])
    ensures forall n: nat :: InFlight(workers[w := x], n) <==> InFlight(workers, n)
    ensures AnySent(workers[w := x]) <==> AnySent(workers)
  {
    NotSentNow(workers, w, x);
    forall n: nat ensures InFlight(workers[w := x], n) <==> InFlight(workers, n) {
      if InFlight(workers, n) {
        var v :| 0 <= v < |workers| && Carries(workers[v], n);
        assert Carries(workers[w := x][v], n);
      }
    }
  }

  /** So does the thread a notification reaches. */
  lemma WakeTurns(workers: seq<Worker>, v: nat)
    ensures CarriedOnce(workers) ==> CarriedOnce(WakeOne(workers, v))
    ensures forall n: nat :: InFlight(WakeOne(workers, v), n) <==> InFlight(workers, n)
    ensures AnySent(WakeOne(workers, v)) <==> AnySent(workers)
  {
    if Sleeps(workers, v) { Turn(workers, v, Woken); }
  }

  /** Workers that carry what they did keep what is said of the numbers. */
  lemma SameCarried(s: Pool, s': Pool)
    requires Invariant(s) && Wakeful(s')
    requires s' == s.(workers := s'.workers, producer := s'.producer) && CarriedOnce(s'.workers)
    requires s'.producer == s.producer || !(s'.producer.Drawn? || s.producer.Drawn?)
    requires forall n: nat :: InFlight(s'.workers, n) <==> InFlight(s.workers, n)
    requires AnySent(s'.workers) <==> AnySent(s.workers)
    requires forall w :: 0 <= w < |s'.workers| ==> InTurn(s'.workers[w], s.sendNum)
    ensures Invariant(s')
  {
    hide Queued, InFlight, QueuedOnce, CarriedOnce, AnySent, InOrder, Wakeful;
    assert forall m: nat :: Pending(s', m) <==> Pending(s, m);
  }

  lemma KeepsDraw(s: Pool)
    requires Invariant(s)
    ensures Invariant(Next(s, Draw))
  {
    if s.producer.Free? {
      hide Queued, InFlight, QueuedOnce, CarriedOnce, AnySent, InOrder;
      assert !Pending(s, s.seqNum);
      var s' := Next(s, Draw);
      assert forall n: nat :: Pending(s', n) <==> Pending(s, n) || n == s.seqNum;
    }
  }

  lemma KeepsEnqueue(s: Pool)
    requires Invariant(s)
    ensures Invariant(Next(s, Enqueue))
  {
    if s.producer.Drawn? {
      var n := s.producer.num;
      Add(s.queue, Task(n, s.index));
      hide Queued, InFlight, QueuedOnce, CarriedOnce, AnySent, InOrder;
      var s' := Next(s, Enqueue);
      assert forall m: nat :: Pending(s', m) <==> Pending(s, m);
    }
  }

  lemma NotSentNow(workers: seq<Worker>, w: nat, x: Worker)
    requires w < |workers| && !workers[w].Sent? && !x.Sent?
    ensures AnySent(workers[w := x]) <==> AnySent(workers)
  {
    if AnySent(workers) {
      var v :| 0 <= v < |workers| && workers[v].Sent?;
      assert workers[w := x][v].Sent?;
    }
  }

  /** After a notification somebody is awake. */
  lemma KeepsNotify(s: Pool, v: nat)
    requires Invariant(s)
    ensures Invariant(Next(s, Notify(v)))
  {
    if s.producer.Queueing? && MayWake(s.workers, v) {
      var s' := Next(s, Notify(v));
      WakeTurns(s.workers, v);
      if Sleeps(s.workers, v) {
        assert s'.workers[v].Woken?;
      } else if s.workers != [] {
        assert !s'.workers[0].Asleep?;
      }
      SameCarried(s, s');
    }
  }

  lemma KeepsSpurious(s: Pool, w: nat)
    requires Invariant(s)
    ensures Invariant(Next(s, Spurious(w)))
  {
    if Sleeps(s.workers, w) {
      var s' := Next(s, Spurious(w));
      Turn(s.workers, w, Woken);
      assert s'.workers[w].Woken?;
      SameCarried(s, s');
    }
  }

  /** A thread that carries nothing looks for work in vain, or notifies. */
  lemma KeepsLooking(s: Pool, w: nat, v: nat)
    requires Invariant(s) && w < |s.workers| && !Loaded(s.workers[w])
    ensures Invariant(Next(s, Work(w, v)))
  {
    var s' := Next(s, Work(w, v));
    if s'.workers != s.workers {
      var x := s'.workers[w];
      if s.workers[w].Notifying? {
        WakeTurns(s.workers, v);
        Turn(WakeOne(s.workers, v), w, x);
      } else {
        Turn(s.workers, w, x);
      }
      assert s'.queue != {} ==> !s'.workers[w].Asleep?;
      SameCarried(s, s');
    }
  }

  lemma KeepsPop(s: Pool, w: nat, t: Task)
    requires Invariant(s)
    ensures Invariant(Next(s, Pop(w, t)))
  {
    if w < |s.workers| && (s.workers[w].Idle? || s.workers[w].Woken?) && Top(s.queue, t) {
      Remove(s.queue, t);
      PickUp(s.workers, w, Checking(t.num));
      NotSentNow(s.workers, w, Checking(t.num));
      var s' := Next(s, Pop(w, t));
      assert !s'.workers[w].Asleep?;
      hide Queued, InFlight, QueuedOnce, CarriedOnce, AnySent, InOrder, Top;
      assert forall m: nat :: Pending(s', m) <==> Pending(s, m);
    }
  }

  /** Not its turn: it goes back into the queue. */
  lemma KeepsRequeue(s: Pool, w: nat, v: nat)
    requires Invariant(s) && w < |s.workers| && s.workers[w].Checking? && s.workers[w].num != s.sendNum
    ensures Invariant(Next(s, Work(w, v)))
  {
    var n := s.workers[w].num;
    Change(s.workers, w, Notifying);
    NotSentNow(s.workers, w, Notifying);
    Add(s.queue, Task(n, s.index));
    hide Queued, InFlight, QueuedOnce, CarriedOnce, AnySent, InOrder;
    var s' := Next(s, Work(w, v));
    assert !s'.workers[w].Asleep?;
    assert forall m: nat :: Pending(s', m) <==> Pending(s, m);
  }

  lemma KeepsTurn(s: Pool, w: nat, v: nat)
    requires Invariant(s) && w < |s.workers| && s.workers[w].Checking? && s.workers[w].num == s.sendNum
    ensures Invariant(Next(s, Work(w, v)))
  {
    var x := Sending(s.workers[w].num);
    Change(s.workers, w, x);
    NotSentNow(s.workers, w, x);
    hide Queued, InFlight, QueuedOnce, CarriedOnce, AnySent, InOrder;
    var s' := Next(s, Work(w, v));
    assert !s'.workers[w].Asleep?;
    assert forall m: nat :: Pending(s', m) <==> Pending(s, m);
  }

  /** While one worker sends, no other does. */
  lemma SenderIsAlone(s: Pool, w: nat)
    requires Invariant(s) && w < |s.workers| && (s.workers[w].Sending? || s.workers[w].Sent?)
    ensures forall v :: 0 <= v < |s.workers| && v != w ==> !s.workers[v].Sending? && !s.workers[v].Sent?
  {
    assert Carries(s.workers[w], s.sendNum);
    forall v | 0 <= v < |s.workers| && v != w ensures !s.workers[v].Sending? && !s.workers[v].Sent? {
      assert s.workers[v].Sending? || s.workers[v].Sent? ==> Carries(s.workers[v], s.sendNum);
    }
  }

  lemma KeepsSend(s: Pool, w: nat, v: nat)
    requires Invariant(s) && w < |s.workers| && s.workers[w].Sending?
    ensures Invariant(Next(s, Work(w, v)))
  {
    var x := Sent(s.workers[w].num);
    SenderIsAlone(s, w);
    Change(s.workers, w, x);
    assert !AnySent(s.workers);
    assert s.workers[w := x][w].Sent? && AnySent(s.workers[w := x]);
    hide Queued, InFlight, QueuedOnce, CarriedOnce, AnySent;
    var s' := Next(s, Work(w, v));
    assert !s'.workers[w].Asleep?;
    assert forall m: nat :: Pending(s', m) <==> Pending(s, m);
  }

  lemma KeepsAcknowledge(s: Pool, w: nat, v: nat)
    requires Invariant(s) && w < |s.workers| && s.workers[w].Sent?
    ensures Invariant(Next(s, Work(w, v)))
  {
    SenderIsAlone(s, w);
    Change(s.workers, w, Idle);
    assert AnySent(s.workers) && !AnySent(s.workers[w := Idle]);
    hide Queued, InFlight, QueuedOnce, CarriedOnce, AnySent, InOrder;
    var s' := Next(s, Work(w, v));
    assert !s'.workers[w].Asleep?;
    assert Pending(s, s.sendNum);
    assert forall m: nat :: Pending(s', m) <==> Pending(s, m) && m != s.sendNum;
  }

  lemma NextKeepsInvariant(s: Pool, step: Step)
    requires Invariant(s)
    ensures Invariant(Next(s, step))
  {
    match step
    case Draw => KeepsDraw(s);
    case Enqueue => KeepsEnqueue(s);
    case Pop(w, t) => KeepsPop(s, w, t);
    case Notify(v) => KeepsNotify(s, v);
    case Spurious(w) => KeepsSpurious(s, w);
    case Work(w, v) =>
      if w < |s.workers| {
        match s.workers[w]
        case Checking(n) => if n == s.sendNum { KeepsTurn(s, w, v); } else { KeepsRequeue(s, w, v); }
        case Sending(n) => KeepsSend(s, w, v);
        case Sent(n) => KeepsAcknowledge(s, w, v);
        case _ => KeepsLooking(s, w, v);
      }
    case LoadSeqNum => KeepsLoads(s, step);
    case LoadSendNum => KeepsLoads(s, step);
  }

  lemma KeepsLoads(s: Pool, step: Step)
    requires Invariant(s) && (step.LoadSeqNum? || step.LoadSendNum?)
    ensures Invariant(Next(s, step))
  {
    hide Queued, InFlight, QueuedOnce, CarriedOnce, AnySent, InOrder;
    var s' := Next(s, step);
    assert forall m: nat :: Pending(s', m) <==> Pending(s, m);
  }

  lemma {:induction false} RunKeepsInvariant(s: Pool, steps: seq<Step>)
    requires Invariant(s)
    ensures Invariant(Run(s, steps))
    decreases |steps|
  {
    if steps != [] {
      NextKeepsInvariant(s, steps[0]);
      RunKeepsInvariant(Next(s, steps[0]), steps[1..]);
    }
  }

  /** The number of pool threads does not change. */
  lemma {:induction false} ThreadsStay(s: Pool, steps: seq<Step>)
    ensures |Run(s, steps).workers| == |s.workers|
    decreases |steps|
  {
    if steps != [] {
      ThreadsStay(Next(s, steps[0]), steps[1..]);
    }
  }

  /** What holds in every reachable state. */
  lemma Reachable(threads: nat, steps: seq<Step>)
    ensures var s := Run(Init(threads), steps); Invariant(s) && |s.workers| == threads && s.sendNum <= s.seqNum
  {
    InitInvariant(threads);
    ThreadsStay(Init(threads), steps);
    assert |Init(threads).workers| == threads;
    hide Run, Init;
    RunKeepsInvariant(Init(threads), steps);
  }

  // ---------------------------------------------------------------- what it means

  /** However the threads interleave: sends are attempted as 0, 1, 2, ..., at most one at a time, and
      what is drawn and not acknowledged is in exactly one place. */
  lemma DeliveredInOrder(threads: nat, steps: seq<Step>)
    ensures var s := Run(Init(threads), steps);
            InOrder(s.log) && s.sendNum <= |s.log| <= s.sendNum + 1 && Once(s)
            && (forall n: nat :: Pending(s, n) <==> s.sendNum <= n < s.seqNum)
            && forall v, w :: 0 <= v < |s.workers| && 0 <= w < |s.workers| ==>
                 s.workers[v].Sending? && s.workers[w].Sending? ==> v == w
  {
    InitInvariant(threads);
    RunKeepsInvariant(Init(threads), steps);
    var s := Run(Init(threads), steps);
    hide Run;
    forall v, w | 0 <= v < |s.workers| && 0 <= w < |s.workers| && s.workers[v].Sending? && s.workers[w].Sending?
      ensures v == w
    {
      SenderIsAlone(s, v);
    }
  }

  /** When close's wait loop ends, every number it saw drawn has been sent; if none was drawn since,
      nothing is left anywhere. */
  lemma CloseWaitsForAll(threads: nat, steps: seq<Step>)
    ensures var s := Run(Init(threads), steps);
            s.closer.Done? ==>
              |s.log| >= s.closer.num && (forall n: nat :: Pending(s, n) ==> n >= s.closer.num)
              && (s.seqNum == s.closer.num ==>
                    |s.log| == s.seqNum && s.queue == {} && !s.producer.Drawn?
                    && forall w :: 0 <= w < |s.workers| ==> !Loaded(s.workers[w]))
  {
    InitInvariant(threads);
    RunKeepsInvariant(Init(threads), steps);
    var s := Run(Init(threads), steps);
    hide Run;
    if s.closer.Done? && s.seqNum == s.closer.num {
      assert forall n: nat :: !Pending(s, n);
      assert forall t :: t in s.queue ==> Queued(s.queue, t.num) && Pending(s, t.num);
      forall w | 0 <= w < |s.workers| ensures !Loaded(s.workers[w]) {
        assert Loaded(s.workers[w]) ==> Carries(s.workers[w], s.workers[w].num) && Pending(s, s.workers[w].num);
      }
      assert s.producer.Drawn? ==> Pending(s, s.producer.num);
    }
  }

  /** No wake-up is lost: while there is work, some thread is awake or the writer is about to notify. */
  lemma SleepersAreWoken(threads: nat, steps: seq<Step>)
    requires threads > 0
    ensures var s := Run(Init(threads), steps);
            s.queue != {} ==> s.producer.Queueing? || exists w :: 0 <= w < |s.workers| && !s.workers[w].Asleep?
  {
    Reachable(threads, steps);
    hide Run, Init;
  }

  /** Unless a thread already has it, the number whose turn it is tops the queue. */
  lemma SmallestIsSendable(s: Pool)
    returns (t: Task)
    requires Invariant(s) && s.sendNum < s.seqNum
    requires s.producer != Drawn(s.sendNum) && !InFlight(s.workers, s.sendNum)
    ensures Top(s.queue, t) && t.num == s.sendNum
  {
    assert Pending(s, s.sendNum);
    t :| t in s.queue && t.num == s.sendNum;
    forall u | u in s.queue ensures Before(t, u) {
      assert Queued(s.queue, u.num) && Pending(s, u.num);
    }
  }

  // ---------------------------------------------------------------- every fair schedule sends

  /** Who moves next: a pool thread, the writer queueing what it drew or notifying, the writer drawing, a
      spurious wake-up, or the closer. `wakes` is the thread to wake, should it come to that. */
  datatype Actor = Thread(w: nat, wakes: nat) | Queuer(wakes: nat) | Drawer | Waker(w: nat) | SeqLoader | SendLoader

  lemma TopExists(queue: set<Task>) returns (t: Task)
    requires queue != {}
    ensures Top(queue, t)
    decreases |queue|
  {
    var u :| u in queue;
    var rest := queue - {u};
    if rest == {} {
      t := u;
    } else {
      var v := TopExists(rest);
      t := if Before(u, v) then u else v;
    }
    assert forall x :: x in queue ==> x == u || x in rest;
  }

  /** The thread asked for, if it sleeps; or else any that does. */
  ghost function Wakes(workers: seq<Worker>, v: nat): (u: nat)
    ensures MayWake(workers, u)
  {
    if MayWake(workers, v) then v else
      var u :| 0 <= u < |workers| && workers[u].Asleep?; u
  }

  predicate Looks(s: Pool, w: nat) { w < |s.workers| && (s.workers[w].Idle? || s.workers[w].Woken?) }

  /** The step an actor takes: a thread that looks for work pops the top of the queue, if there is one. */
  ghost function Move(s: Pool, a: Actor): Step
  {
    match a
    case Thread(w, v) =>
      if Looks(s, w) && exists t :: Top(s.queue, t) then var t :| Top(s.queue, t); Pop(w, t)
      else Work(w, Wakes(s.workers, v))
    case Queuer(v) => if s.producer.Queueing? then Notify(Wakes(s.workers, v)) else Enqueue
    case Drawer => Draw
    case Waker(w) => Spurious(w)
    case SeqLoader => LoadSeqNum
    case SendLoader => LoadSendNum
  }

  ghost function RunActors(s: Pool, actors: seq<Actor>): Pool
    decreases |actors|
  {
    if actors == [] then s else RunActors(Next(s, Move(s, actors[0])), actors[1..])
  }

  /** The moves a thread makes before it looks for work again, if it has not the number whose turn it is. */
  function Detour(w: Worker): (n: nat)
    ensures n <= 2
  {
    match w case Checking(_) => 2 case Notifying => 1 case _ => 0
  }

  function Load(workers: seq<Worker>): (n: nat)
    ensures n <= 2 * |workers|
    ensures AllAsleep(workers) ==> n == 0
  {
    if workers == [] then 0 else
      assert AllAsleep(workers) ==> AllAsleep(workers[1..]);
      Detour(workers[0]) + Load(workers[1..])
  }

  lemma {:induction false} LoadUpdate(workers: seq<Worker>, w: nat, x: Worker)
    requires w < |workers|
    ensures Load(workers[w := x]) + Detour(workers[w]) == Load(workers) + Detour(x)
  {
    if w == 0 {
      assert workers[w := x][1..] == workers[1..];
    } else {
      assert workers[w := x][1..] == workers[1..][w - 1 := x];
      LoadUpdate(workers[1..], w - 1, x);
    }
  }

  function StepsToGo(w: Worker): (n: nat)
    ensures n <= 3
  {
    match w case Checking(_) => 3 case Sending(_) => 2 case Sent(_) => 1 case _ => 0
  }

  /** Thread `w` has the number whose turn it is. */
  predicate Has(s: Pool, w: nat) { w < |s.workers| && Carries(s.workers[w], s.sendNum) }

  ghost predicate Held(s: Pool) { exists w: nat :: Has(s, w) }

  ghost function Holder(s: Pool): (w: nat)
    requires Held(s)
    ensures Has(s, w)
  {
    var w: nat :| Has(s, w); w
  }

  /** How many moves of the right actor the number whose turn it is needs, at most: its thread's moves to
      the acknowledgement; or before that, with the number queued, the detours of the threads that are awake, a
      pop, and the writer's notification if all sleep; or before that the writer's queueing. */
  ghost function Distance(s: Pool): (d: nat)
    ensures d <= 2 * |s.workers| + 6
  {
    if Held(s) then StepsToGo(s.workers[Holder(s)])
    else if s.producer == Drawn(s.sendNum) then 2 * |s.workers| + 6
    else Load(s.workers) + 4 + if AllAsleep(s.workers) then 1 else 0
  }

  /** The actors whose move brings it nearer. Threads that sleep are not among them. */
  ghost predicate Responsible(s: Pool, a: Actor)
  {
    if Held(s) then a.Thread? && a.w == Holder(s)
    else if s.producer == Drawn(s.sendNum) then a.Queuer?
    else if AllAsleep(s.workers) then a.Queuer? && s.workers != []
    else a.Thread? && a.w < |s.workers| && !s.workers[a.w].Asleep?
  }

  /** Nothing gets further from being sent, and a responsible actor brings it nearer. */
  ghost predicate Nearer(s: Pool, s': Pool, a: Actor)
  {
    s'.sendNum > s.sendNum
    || (s'.sendNum == s.sendNum && Distance(s') <= Distance(s)
        && (Distance(s') == Distance(s) ==> !Responsible(s, a) && forall b :: Responsible(s, b) ==> Responsible(s', b)))
  }

  lemma HolderIs(s: Pool, w: nat)
    requires Invariant(s) && Has(s, w)
    ensures Held(s) && Holder(s) == w
  {
  }

  lemma HeldIsInFlight(s: Pool)
    ensures Held(s) <==> InFlight(s.workers, s.sendNum)
  {
    if InFlight(s.workers, s.sendNum) {
      var w :| 0 <= w < |s.workers| && Carries(s.workers[w], s.sendNum);
      assert Has(s, w);
    }
  }

  lemma WhereItIs(s: Pool)
    requires Invariant(s) && s.sendNum < s.seqNum
    ensures Held(s) || s.producer == Drawn(s.sendNum) || Queued(s.queue, s.sendNum)
    ensures Queued(s.queue, s.sendNum) ==> !Held(s) && s.producer != Drawn(s.sendNum)
    ensures s.producer == Drawn(s.sendNum) ==> !Held(s)
  {
    HeldIsInFlight(s);
    assert Pending(s, s.sendNum);
  }

  /** A move that changes no thread and has nothing to do with the number. */
  lemma SameNearer(s: Pool, a: Actor, s': Pool)
    requires Invariant(s) && Invariant(s') && !Responsible(s, a)
    requires s'.workers == s.workers && s'.sendNum == s.sendNum
    requires s.producer == Drawn(s.sendNum) <==> s'.producer == Drawn(s.sendNum)
    ensures Nearer(s, s', a)
  {
    hide Invariant, Load, StepsToGo;
    if Held(s) {
      assert Has(s', Holder(s));
      HolderIs(s', Holder(s));
    }
    assert Held(s') ==> Has(s, Holder(s'));
  }

  lemma WakeLoad(workers: seq<Worker>, v: nat)
    ensures Load(WakeOne(workers, v)) == Load(workers)
  {
    if Sleeps(workers, v) { LoadUpdate(workers, v, Woken); }
  }

  /** Waking a thread, which is what the number waits for if all sleep. */
  lemma WakeNearer(s: Pool, a: Actor, v: nat, s': Pool)
    requires Invariant(s) && Invariant(s') && s.sendNum < s.seqNum
    requires s' == s.(workers := WakeOne(s.workers, v), producer := s'.producer)
    requires s.producer == Drawn(s.sendNum) <==> s'.producer == Drawn(s.sendNum)
    requires Responsible(s, a) ==> a.Queuer? && s.producer.Queueing? && MayWake(s.workers, v)
    ensures Nearer(s, s', a)
  {
    hide Invariant, Load, StepsToGo, Queued;
    WakeLoad(s.workers, v);
    WhereItIs(s');
    WhereItIs(s);
    if Held(s) {
      assert Has(s', Holder(s));
      HolderIs(s', Holder(s));
    }
    assert Held(s') ==> Has(s, Holder(s'));
    if Sleeps(s.workers, v) {
      assert !s'.workers[v].Asleep?;
    } else if s.workers != [] && NoneAsleep(s.workers) {
      NoneIsNotAll(s.workers);
    }
  }

  lemma NoneIsNotAll(workers: seq<Worker>)
    requires workers != [] && NoneAsleep(workers)
    ensures !AllAsleep(workers)
  {
    assert !workers[0].Asleep?;
  }

  lemma QueuerNearer(s: Pool, a: Actor)
    requires Invariant(s) && s.sendNum < s.seqNum && a.Queuer?
    ensures Nearer(s, Next(s, Move(s, a)), a)
  {
    var s' := Next(s, Move(s, a));
    NextKeepsInvariant(s, Move(s, a));
    WhereItIs(s);
    WhereItIs(s');
    if s.producer.Queueing? {
      WakeNearer(s, a, Wakes(s.workers, a.wakes), s');
    } else if s.producer != Drawn(s.sendNum) {
      assert Queued(s.queue, s.sendNum) ==> s.queue != {};
      SameNearer(s, a, s');
    }
  }

  lemma OthersNearer(s: Pool, a: Actor)
    requires Invariant(s) && s.sendNum < s.seqNum && !a.Thread? && !a.Queuer?
    ensures Nearer(s, Next(s, Move(s, a)), a)
  {
    var s' := Next(s, Move(s, a));
    NextKeepsInvariant(s, Move(s, a));
    if a.Waker? {
      WakeNearer(s, a, a.w, s');
    } else {
      SameNearer(s, a, s');
    }
  }

  /** The thread that has it goes on with it. */
  lemma HolderNearer(s: Pool, a: Actor)
    requires Invariant(s) && s.sendNum < s.seqNum && a.Thread? && Has(s, a.w)
    ensures Nearer(s, Next(s, Move(s, a)), a)
  {
    var s' := Next(s, Move(s, a));
    assert Move(s, a).Work?;
    NextKeepsInvariant(s, Move(s, a));
    HolderIs(s, a.w);
    if !s.workers[a.w].Sent? {
      assert Has(s', a.w);
      HolderIs(s', a.w);
    }
  }

  /** A thread that does not have it leaves the number acknowledged last, and what others have, alone. */
  lemma OtherThread(s: Pool, a: Actor)
    requires Invariant(s) && a.Thread? && !Has(s, a.w)
    ensures var s' := Next(s, Move(s, a));
            s'.sendNum == s.sendNum && s'.producer == s.producer && s'.seqNum == s.seqNum && |s'.workers| == |s.workers|
            && forall v: nat :: Has(s, v) ==> Has(s', v)
  {
    if a.w < |s.workers| {
      assert InTurn(s.workers[a.w], s.sendNum);
    }
  }

  lemma BystanderNearer(s: Pool, a: Actor)
    requires Invariant(s) && s.sendNum < s.seqNum && a.Thread? && !Has(s, a.w)
    requires Held(s) || s.producer == Drawn(s.sendNum)
    ensures Nearer(s, Next(s, Move(s, a)), a)
  {
    var s' := Next(s, Move(s, a));
    NextKeepsInvariant(s, Move(s, a));
    OtherThread(s, a);
    WhereItIs(s);
    WhereItIs(s');
    hide Invariant, Queued, Load, StepsToGo, Next, Move;
    if Held(s) {
      assert Has(s', Holder(s));
      HolderIs(s', Holder(s));
    }
  }

  /** With the number in the queue, a thread that looks for work pops just that one. */
  lemma LooksNearer(s: Pool, a: Actor)
    requires Invariant(s) && s.sendNum < s.seqNum && Queued(s.queue, s.sendNum) && a.Thread? && Looks(s, a.w)
    ensures Nearer(s, Next(s, Move(s, a)), a)
  {
    var s' := Next(s, Move(s, a));
    WhereItIs(s);
    NextKeepsInvariant(s, Move(s, a));
    PopsIt(s, a);
    HolderIs(s', a.w);
  }

  lemma PopsIt(s: Pool, a: Actor)
    requires Invariant(s) && s.sendNum < s.seqNum && Queued(s.queue, s.sendNum) && a.Thread? && Looks(s, a.w)
    ensures var s' := Next(s, Move(s, a));
            Has(s', a.w) && s'.workers[a.w].Checking? && s'.sendNum == s.sendNum
  {
    var n: Task :| n in s.queue && n.num == s.sendNum;
    var top := TopExists(s.queue);
    forall t | Top(s.queue, t) ensures t.num == s.sendNum {
      assert Queued(s.queue, t.num) && Pending(s, t.num);
    }
    assert Move(s, a).Pop?;
  }

  /** One on a detour gets on with it: it puts another number back, or notifies. */
  lemma DetourNearer(s: Pool, a: Actor)
    requires Invariant(s) && s.sendNum < s.seqNum && Queued(s.queue, s.sendNum) && a.Thread? && !Looks(s, a.w)
    ensures Nearer(s, Next(s, Move(s, a)), a)
  {
    WhereItIs(s);
    assert !Has(s, a.w) && (a.w < |s.workers| ==> InTurn(s.workers[a.w], s.sendNum));
    var s', v := Next(s, Move(s, a)), Wakes(s.workers, a.wakes);
    NextKeepsInvariant(s, Move(s, a));
    assert Move(s, a) == Work(a.w, v);
    if a.w >= |s.workers| {
      assert s' == s;
    } else if s.workers[a.w].Checking? {
      PutsBack(s, a.w, v);
      WhereItIs(s');
    } else if s.workers[a.w].Notifying? {
      WakeLoad(s.workers, v);
      LoadUpdate(WakeOne(s.workers, v), a.w, Idle);
      assert !s'.workers[a.w].Asleep?;
      WhereItIs(s');
    } else {
      assert s.workers[a.w].Asleep? && s' == s;
    }
  }

  lemma PutsBack(s: Pool, w: nat, v: nat)
    requires w < |s.workers| && s.workers[w].Checking? && s.workers[w].num != s.sendNum && Queued(s.queue, s.sendNum)
    ensures var s' := Next(s, Work(w, v));
            Load(s'.workers) < Load(s.workers) && Queued(s'.queue, s.sendNum) && !AllAsleep(s'.workers)
            && s'.sendNum == s.sendNum && s'.seqNum == s.seqNum && s'.producer == s.producer
  {
    LoadUpdate(s.workers, w, Notifying);
    Add(s.queue, Task(s.workers[w].num, s.index));
    assert !Next(s, Work(w, v)).workers[w].Asleep?;
  }

  lemma MoveNearer(s: Pool, a: Actor)
    requires Invariant(s) && s.sendNum < s.seqNum
    ensures Nearer(s, Next(s, Move(s, a)), a)
  {
    WhereItIs(s);
    hide Invariant, Nearer, Next, Move, Queued, Looks;
    if a.Queuer? {
      QueuerNearer(s, a);
    } else if !a.Thread? {
      OthersNearer(s, a);
    } else if Has(s, a.w) {
      HolderNearer(s, a);
    } else if Held(s) || s.producer == Drawn(s.sendNum) {
      BystanderNearer(s, a);
    } else if Looks(s, a.w) {
      LooksNearer(s, a);
    } else {
      DetourNearer(s, a);
    }
  }

  lemma MoveGrows(s: Pool, a: Actor)
    ensures var s' := Next(s, Move(s, a));
            s'.seqNum >= s.seqNum && s'.sendNum >= s.sendNum && |s'.workers| == |s.workers|
  {
  }

  lemma {:induction false} RunActorsGrows(s: Pool, actors: seq<Actor>)
    requires Invariant(s)
    ensures var s' := RunActors(s, actors);
            Invariant(s') && s'.seqNum >= s.seqNum && s'.sendNum >= s.sendNum && |s'.workers| == |s.workers|
    decreases |actors|
  {
    if actors != [] {
      var m := Move(s, actors[0]);
      NextKeepsInvariant(s, m);
      MoveGrows(s, actors[0]);
      hide Invariant, Next, Move;
      RunActorsGrows(Next(s, m), actors[1..]);
    }
  }

  /** However the actors move, the next number is sent or gets no further from it. */
  lemma {:induction false} NeverFurther(s: Pool, actors: seq<Actor>)
    requires Invariant(s) && s.sendNum < s.seqNum
    ensures var s' := RunActors(s, actors); s'.sendNum > s.sendNum || Distance(s') <= Distance(s)
    decreases |actors|
  {
    if actors != [] {
      var s1 := Next(s, Move(s, actors[0]));
      MoveNearer(s, actors[0]);
      NextKeepsInvariant(s, Move(s, actors[0]));
      MoveGrows(s, actors[0]);
      RunActorsGrows(s1, actors[1..]);
      hide Invariant, Next, Move, Distance;
      if s1.sendNum == s.sendNum {
        NeverFurther(s1, actors[1..]);
      }
    }
  }

  /** A schedule in which a responsible actor moves brings the number nearer. */
  lemma {:induction false} Passes(s: Pool, actors: seq<Actor>, b: Actor)
    requires Invariant(s) && s.sendNum < s.seqNum && b in actors && Responsible(s, b)
    ensures var s' := RunActors(s, actors); s'.sendNum > s.sendNum || Distance(s') < Distance(s)
    decreases |actors|
  {
    var s1 := Next(s, Move(s, actors[0]));
    MoveNearer(s, actors[0]);
    NextKeepsInvariant(s, Move(s, actors[0]));
    MoveGrows(s, actors[0]);
    RunActorsGrows(s1, actors[1..]);
    hide Invariant, Next, Move, Distance, Responsible;
    if s1.sendNum == s.sendNum {
      if Distance(s1) < Distance(s) {
        NeverFurther(s1, actors[1..]);
      } else {
        assert b in actors[1..];
        Passes(s1, actors[1..], b);
      }
    }
  }

  /** In a fair round every pool thread that is awake when it begins moves, and the writer does if it has a
      message to queue or a thread to notify of one. */
  ghost predicate Fair(s: Pool, round: seq<Actor>)
  {
    (!s.producer.Free? ==> exists a :: a in round && a.Queuer?)
    && forall w: nat :: w < |s.workers| && !s.workers[w].Asleep? ==> Moves(round, w)
  }

  ghost predicate Moves(round: seq<Actor>, w: nat) { exists a :: a in round && a.Thread? && a.w == w }

  lemma SomeoneResponsible(s: Pool, round: seq<Actor>) returns (b: Actor)
    requires Invariant(s) && s.sendNum < s.seqNum && |s.workers| > 0 && Fair(s, round)
    ensures b in round && Responsible(s, b)
  {
    WhereItIs(s);
    if Held(s) {
      assert Has(s, Holder(s)) && Moves(round, Holder(s));
      b :| b in round && b.Thread? && b.w == Holder(s);
    } else if s.producer == Drawn(s.sendNum) || AllAsleep(s.workers) {
      assert Queued(s.queue, s.sendNum) ==> s.queue != {};
      b :| b in round && b.Queuer?;
    } else {
      var w: nat :| w < |s.workers| && !s.workers[w].Asleep?;
      assert Moves(round, w);
      b :| b in round && b.Thread? && b.w == w;
    }
  }

  lemma RoundNearer(s: Pool, round: seq<Actor>)
    requires Invariant(s) && s.sendNum < s.seqNum && |s.workers| > 0 && Fair(s, round)
    ensures var s' := RunActors(s, round); s'.sendNum > s.sendNum || Distance(s') < Distance(s)
  {
    hide Invariant, Distance, RunActors, Fair, Responsible;
    var b := SomeoneResponsible(s, round);
    Passes(s, round, b);
  }

  ghost function RunRounds(s: Pool, rounds: seq<seq<Actor>>): Pool
    decreases |rounds|
  {
    if rounds == [] then s else RunRounds(RunActors(s, rounds[0]), rounds[1..])
  }

  /** Every round is fair to the state it begins in. */
  ghost predicate AllFair(s: Pool, rounds: seq<seq<Actor>>)
    decreases |rounds|
  {
    rounds == [] || (Fair(s, rounds[0]) && AllFair(RunActors(s, rounds[0]), rounds[1..]))
  }

  lemma {:induction false} RunRoundsGrows(s: Pool, rounds: seq<seq<Actor>>)
    requires Invariant(s)
    ensures var s' := RunRounds(s, rounds);
            Invariant(s') && s'.seqNum >= s.seqNum && s'.sendNum >= s.sendNum && |s'.workers| == |s.workers|
    decreases |rounds|
  {
    if rounds != [] {
      RunActorsGrows(s, rounds[0]);
      hide Invariant, RunActors;
      RunRoundsGrows(RunActors(s, rounds[0]), rounds[1..]);
    }
  }

  /** Under every fair schedule the next number is sent within as many rounds as its distance. */
  lemma {:induction false} FairRoundsSend(s: Pool, rounds: seq<seq<Actor>>)
    requires Invariant(s) && s.sendNum < s.seqNum && |s.workers| > 0
    requires AllFair(s, rounds) && |rounds| > Distance(s)
    ensures RunRounds(s, rounds).sendNum > s.sendNum
    decreases |rounds|
  {
    var s1 := RunActors(s, rounds[0]);
    RoundNearer(s, rounds[0]);
    RunActorsGrows(s, rounds[0]);
    RunRoundsGrows(s1, rounds[1..]);
    hide Invariant, RunActors, Distance, Fair;
    if s1.sendNum == s.sendNum {
      FairRoundsSend(s1, rounds[1..]);
    }
  }

  lemma {:induction false} RoundsAppend(s: Pool, p: seq<seq<Actor>>, q: seq<seq<Actor>>)
    ensures RunRounds(s, p + q) == RunRounds(RunRounds(s, p), q)
    ensures AllFair(s, p + q) <==> AllFair(s, p) && AllFair(RunRounds(s, p), q)
    decreases |p|
  {
    hide RunActors, Fair;
    if p == [] {
      assert p + q == q;
    } else {
      assert (p + q)[1..] == p[1..] + q;
      RoundsAppend(RunActors(s, p[0]), p[1..], q);
    }
  }

  /** So every number drawn before is sent under every fair schedule, within 2 * threads + 7 rounds each. */
  lemma {:induction false} FairRoundsDrain(s: Pool, rounds: seq<seq<Actor>>, goal: nat)
    requires Invariant(s) && |s.workers| > 0 && s.sendNum <= goal <= s.seqNum && AllFair(s, rounds)
    requires |rounds| >= (goal - s.sendNum) * (2 * |s.workers| + 7)
    ensures RunRounds(s, rounds).sendNum >= goal
    decreases goal - s.sendNum
  {
    RunRoundsGrows(s, rounds);
    if s.sendNum < goal {
      var each := 2 * |s.workers| + 7;
      MulGrows(goal - s.sendNum, each);
      var p, q := rounds[..each], rounds[each..];
      var s1 := RunRounds(s, p);
      assert p + q == rounds;
      RoundsAppend(s, p, q);
      hide Invariant, RunRounds, AllFair;
      FairRoundsSend(s, p);
      RunRoundsGrows(s, p);
      if s1.sendNum < goal {
        FewerRounds(goal - s1.sendNum, goal - s.sendNum, each);
        FairRoundsDrain(s1, q, goal);
      } else {
        RunRoundsGrows(s1, q);
      }
    }
  }

  lemma FewerRounds(a: nat, b: nat, each: nat)
    requires a < b
    ensures a * each <= b * each - each
  {
    MulGrows(b - a, each);
    assert (b - a) * each == b * each - a * each;
  }

  /** From every reachable state with at least one pool thread. */
  lemma FairSchedulesDeliver(threads: nat, steps: seq<Step>, rounds: seq<seq<Actor>>)
    requires threads > 0
    requires var s := Run(Init(threads), steps);
             AllFair(s, rounds) && |rounds| >= (s.seqNum - s.sendNum) * (2 * threads + 7)
    ensures var s := Run(Init(threads), steps); RunRounds(s, rounds).sendNum >= s.seqNum
  {
    hide Run, AllFair, RunRounds, Init, Invariant;
    Reachable(threads, steps);
    FairRoundsDrain(Run(Init(threads), steps), rounds, Run(Init(threads), steps).seqNum);
  }

  lemma {:induction false} RunAppend(s: Pool, p: seq<Step>, q: seq<Step>)
    ensures Run(s, p + q) == Run(Run(s, p), q)
    decreases |p|
  {
    hide Next;
    if p == [] {
      assert p + q == q;
    } else {
      assert (p + q)[1..] == p[1..] + q;
      RunAppend(Next(s, p[0]), p[1..], q);
    }
  }

  /** What actors do is a run; without the writer drawing, no number is added. */
  lemma {:induction false} ActorsAreSteps(s: Pool, actors: seq<Actor>) returns (steps: seq<Step>)
    requires Drawer !in actors
    ensures Run(s, steps) == RunActors(s, actors) && RunActors(s, actors).seqNum == s.seqNum
    decreases |actors|
  {
    steps := [];
    if actors != [] {
      var m := Move(s, actors[0]);
      assert actors[0] in actors && Next(s, m).seqNum == s.seqNum;
      hide Next, Move;
      var rest := ActorsAreSteps(Next(s, m), actors[1..]);
      steps := [m] + rest;
      assert steps[1..] == rest;
    }
  }

  lemma {:induction false} RoundsAreSteps(s: Pool, rounds: seq<seq<Actor>>) returns (steps: seq<Step>)
    requires forall round :: round in rounds ==> Drawer !in round
    ensures Run(s, steps) == RunRounds(s, rounds) && RunRounds(s, rounds).seqNum == s.seqNum
    decreases |rounds|
  {
    steps := [];
    if rounds != [] {
      hide Run, RunActors;
      var first := ActorsAreSteps(s, rounds[0]);
      var rest := RoundsAreSteps(RunActors(s, rounds[0]), rounds[1..]);
      RunAppend(s, first, rest);
      steps := first + rest;
    } else {
      assert Run(s, []) == s;
    }
  }

  /** A round in which the writer, the closer and all threads move. */
  function FullRound(threads: nat): seq<Actor>
  {
    [Queuer(0), SeqLoader, SendLoader] + seq(threads, i requires 0 <= i < threads => Thread(i, 0))
  }

  function FullRounds(threads: nat, count: nat): (rounds: seq<seq<Actor>>)
    ensures |rounds| == count && forall round :: round in rounds ==> Drawer !in round
  {
    if count == 0 then [] else [FullRound(threads)] + FullRounds(threads, count - 1)
  }

  lemma {:induction false} FullRoundsFair(s: Pool, count: nat)
    requires Invariant(s)
    ensures AllFair(s, FullRounds(|s.workers|, count))
    decreases count
  {
    var round := FullRound(|s.workers|);
    if count > 0 {
      assert round[0] == Queuer(0);
      forall w: nat | w < |s.workers| ensures Moves(round, w) {
        assert round[w + 3] == Thread(w, 0);
      }
      RunActorsGrows(s, round);
      hide Invariant, RunActors, FullRound;
      FullRoundsFair(RunActors(s, round), count - 1);
      assert FullRounds(|s.workers|, count)[1..] == FullRounds(|s.workers|, count - 1);
    }
  }

  /** No reachable state is stuck: some continuation sends everything drawn so far. */
  lemma NeverStuck(threads: nat, steps: seq<Step>) returns (more: seq<Step>)
    requires threads > 0
    ensures Run(Init(threads), steps + more).sendNum == Run(Init(threads), steps + more).seqNum
  {
    hide Run, Init, Invariant, AllFair, RunRounds, FullRounds;
    var s := Run(Init(threads), steps);
    Reachable(threads, steps);
    var rounds := FullRounds(threads, (s.seqNum - s.sendNum) * (2 * threads + 7));
    FullRoundsFair(s, |rounds|);
    more := RoundsAreSteps(s, rounds);
    FairSchedulesDeliver(threads, steps, rounds);
    RunAppend(Init(threads), steps, more);
    Reachable(threads, steps + more);
  }

  // ---------------------------------------------------------------- close's wait ends

  /** Once everything drawn has been sent, the two loads end the wait, whichever comes first. */
  lemma LoadsEnd(threads: nat, steps: seq<Step>)
    requires var s := Run(Init(threads), steps); s.closer.Waiting? && s.seqNum == s.sendNum
    ensures var s := Run(Init(threads), steps);
            Next(Next(s, LoadSeqNum), LoadSendNum) == s.(closer := Done(s.seqNum))
            && Next(Next(s, LoadSendNum), LoadSeqNum) == s.(closer := Done(s.seqNum))
  {
    hide Run;
  }

  /** In a round both loads are made. */
  predicate Loads(round: seq<Actor>) { SeqLoader in round && SendLoader in round }

  /** With nothing left to send, and nothing drawn, that is how it stays. */
  lemma {:induction false} StaysDrained(s: Pool, actors: seq<Actor>)
    requires Invariant(s) && s.seqNum == s.sendNum && Drawer !in actors
    ensures var s' := RunActors(s, actors); Invariant(s') && s'.seqNum == s'.sendNum == s.seqNum
    decreases |actors|
  {
    if actors != [] {
      var m := Move(s, actors[0]);
      NextKeepsInvariant(s, m);
      NothingToDraw(s, actors[0]);
      hide Invariant, Next, Move;
      StaysDrained(Next(s, m), actors[1..]);
    }
  }

  lemma NothingToDraw(s: Pool, a: Actor)
    requires Invariant(s) && s.seqNum == s.sendNum && !a.Drawer?
    ensures var s' := Next(s, Move(s, a)); s'.seqNum == s.seqNum
  {
  }

  lemma {:induction false} RoundsStayDrained(s: Pool, rounds: seq<seq<Actor>>)
    requires Invariant(s) && s.seqNum == s.sendNum && NobodyDraws(rounds)
    ensures var s' := RunRounds(s, rounds); Invariant(s') && s'.seqNum == s'.sendNum == s.seqNum
    decreases |rounds|
  {
    if rounds != [] {
      StaysDrained(s, rounds[0]);
      hide Invariant, RunActors;
      RoundsStayDrained(RunActors(s, rounds[0]), rounds[1..]);
    }
  }

  predicate NobodyDraws(rounds: seq<seq<Actor>>) { forall round :: round in rounds ==> Drawer !in round }

  predicate AllLoad(rounds: seq<seq<Actor>>) { forall round :: round in rounds ==> Loads(round) }

  /** The loads that end the wait, or have failed to, are still to come. */
  function LoadsLeft(s: Pool): (n: nat)
    ensures n <= 3 && (n == 0 <==> s.closer.Done?)
  {
    match s.closer
    case Done(_) => 0
    case LoadedSeq(n) => if n == s.sendNum then 1 else 3
    case LoadedSend(n) => if n == s.seqNum then 1 else 3
    case Waiting => 2
  }

  /** The closer's next load. */
  predicate IsNextLoad(s: Pool, a: Actor)
  {
    (a.SeqLoader? && (s.closer.Waiting? || s.closer.LoadedSend?))
    || (a.SendLoader? && (s.closer.Waiting? || s.closer.LoadedSeq?))
  }

  lemma LoadHelps(s: Pool, a: Actor)
    requires Invariant(s) && s.seqNum == s.sendNum && !a.Drawer?
    ensures var s' := Next(s, Move(s, a));
            if IsNextLoad(s, a) then LoadsLeft(s') < LoadsLeft(s)
            else LoadsLeft(s') == LoadsLeft(s) && s'.closer == s.closer
  {
    NextKeepsInvariant(s, Move(s, a));
    NothingToDraw(s, a);
    MoveGrows(s, a);
  }

  /** Other moves leave the closer where it is. */
  lemma {:induction false} LoadsNeverGrow(s: Pool, actors: seq<Actor>)
    requires Invariant(s) && s.seqNum == s.sendNum && Drawer !in actors
    ensures LoadsLeft(RunActors(s, actors)) <= LoadsLeft(s)
    decreases |actors|
  {
    if actors != [] {
      var s1 := Next(s, Move(s, actors[0]));
      LoadHelps(s, actors[0]);
      assert RunActors(s, [actors[0]]) == RunActors(s1, []) by { assert [actors[0]][1..] == []; }
      StaysDrained(s, [actors[0]]);
      hide Invariant, Next, Move, LoadsLeft, IsNextLoad;
      LoadsNeverGrow(s1, actors[1..]);
    }
  }

  lemma {:induction false} LoadsPass(s: Pool, actors: seq<Actor>, b: Actor)
    requires Invariant(s) && s.seqNum == s.sendNum && Drawer !in actors && b in actors && IsNextLoad(s, b)
    ensures LoadsLeft(RunActors(s, actors)) < LoadsLeft(s)
    decreases |actors|
  {
    var s1 := Next(s, Move(s, actors[0]));
    LoadHelps(s, actors[0]);
    assert RunActors(s, [actors[0]]) == RunActors(s1, []) by { assert [actors[0]][1..] == []; }
    StaysDrained(s, [actors[0]]);
    hide Invariant, Next, Move, LoadsLeft;
    if IsNextLoad(s, actors[0]) {
      LoadsNeverGrow(s1, actors[1..]);
    } else {
      assert b in actors[1..];
      LoadsPass(s1, actors[1..], b);
    }
  }

  /** A closer that keeps loading ends within three rounds once everything has been sent. */
  lemma {:induction false} LoadsEndRounds(s: Pool, rounds: seq<seq<Actor>>)
    requires Invariant(s) && s.seqNum == s.sendNum && NobodyDraws(rounds) && AllLoad(rounds)
    requires |rounds| >= LoadsLeft(s)
    ensures RunRounds(s, rounds).closer.Done?
    decreases |rounds|
  {
    if rounds != [] {
      var s1 := RunActors(s, rounds[0]);
      StaysDrained(s, rounds[0]);
      LoadsNeverGrow(s, rounds[0]);
      if LoadsLeft(s) > 0 {
        assert Loads(rounds[0]);
        LoadsPass(s, rounds[0], if s.closer.LoadedSeq? then SendLoader else SeqLoader);
      }
      hide Invariant, RunActors, LoadsLeft;
      LoadsEndRounds(s1, rounds[1..]);
    }
  }

  /** What the closer has loaded of `_seqNum`, if anything, is its value now. */
  predicate UpToDate(s: Pool) { s.closer.LoadedSeq? || s.closer.Done? ==> s.closer.num == s.seqNum }

  lemma {:induction false} StaysUpToDate(s: Pool, actors: seq<Actor>)
    requires UpToDate(s) && Drawer !in actors
    ensures UpToDate(RunActors(s, actors)) && RunActors(s, actors).seqNum == s.seqNum
    decreases |actors|
  {
    if actors != [] {
      var s1 := Next(s, Move(s, actors[0]));
      assert UpToDate(s1) && s1.seqNum == s.seqNum;
      hide Next, Move, UpToDate;
      StaysUpToDate(s1, actors[1..]);
    }
  }

  lemma {:induction false} RoundsStayUpToDate(s: Pool, rounds: seq<seq<Actor>>)
    requires UpToDate(s) && NobodyDraws(rounds)
    ensures UpToDate(RunRounds(s, rounds)) && RunRounds(s, rounds).seqNum == s.seqNum
    decreases |rounds|
  {
    if rounds != [] {
      StaysUpToDate(s, rounds[0]);
      hide UpToDate, RunActors;
      RoundsStayUpToDate(RunActors(s, rounds[0]), rounds[1..]);
    }
  }

  lemma PartsLoad(p: seq<seq<Actor>>, q: seq<seq<Actor>>)
    requires NobodyDraws(p + q) && AllLoad(p + q)
    ensures NobodyDraws(p) && NobodyDraws(q) && AllLoad(q)
  {
    assert forall round :: round in p || round in q ==> round in p + q;
  }

  lemma DrainFirst(s: Pool, p: seq<seq<Actor>>)
    requires Invariant(s) && |s.workers| > 0 && s.sendNum <= s.seqNum && UpToDate(s)
    requires NobodyDraws(p) && AllFair(s, p) && |p| >= (s.seqNum - s.sendNum) * (2 * |s.workers| + 7)
    ensures var s1 := RunRounds(s, p); Invariant(s1) && UpToDate(s1) && s1.seqNum == s1.sendNum == s.seqNum
  {
    hide AllFair, RunRounds, Invariant, NobodyDraws, UpToDate;
    FairRoundsDrain(s, p, s.seqNum);
    RunRoundsGrows(s, p);
    RoundsStayUpToDate(s, p);
    BehindOrDone(RunRounds(s, p));
  }

  lemma ThenLoad(s: Pool, q: seq<seq<Actor>>)
    requires Invariant(s) && UpToDate(s) && s.seqNum == s.sendNum && NobodyDraws(q) && AllLoad(q) && |q| >= 3
    ensures var s' := RunRounds(s, q); s'.closer == Done(s.seqNum) && s'.seqNum == s'.sendNum == s.seqNum
  {
    hide RunRounds, Invariant, NobodyDraws, AllLoad, UpToDate, LoadsLeft;
    LoadsEndRounds(s, q);
    RoundsStayDrained(s, q);
    RoundsStayUpToDate(s, q);
    DoneIsUpToDate(RunRounds(s, q));
  }

  lemma CloseFrom(s: Pool, p: seq<seq<Actor>>, q: seq<seq<Actor>>)
    requires Invariant(s) && |s.workers| > 0 && s.closer.Waiting? && s.sendNum <= s.seqNum
    requires NobodyDraws(p + q) && AllLoad(p + q) && AllFair(s, p + q)
    requires |p| >= (s.seqNum - s.sendNum) * (2 * |s.workers| + 7) && |q| >= 3
    ensures var s' := RunRounds(s, p + q); s'.closer == Done(s.seqNum) && s'.seqNum == s'.sendNum == s.seqNum
  {
    assert UpToDate(s);
    hide AllFair, RunRounds, Invariant, NobodyDraws, AllLoad, UpToDate;
    PartsLoad(p, q);
    RoundsAppend(s, p, q);
    DrainFirst(s, p);
    ThenLoad(RunRounds(s, p), q);
  }

  lemma DoneIsUpToDate(s: Pool)
    requires UpToDate(s) && s.closer.Done?
    ensures s.closer == Done(s.seqNum)
  {
  }

  /** Close returns: from every reachable state in which its wait begins, under every fair schedule in which the
      writer draws no more and the closer keeps loading, the wait ends, having seen every number drawn. */
  lemma CloseReturns(threads: nat, steps: seq<Step>, rounds: seq<seq<Actor>>)
    requires threads > 0 && NobodyDraws(rounds) && AllLoad(rounds)
    requires var s := Run(Init(threads), steps);
             s.closer.Waiting? && AllFair(s, rounds) && |rounds| >= (s.seqNum - s.sendNum) * (2 * threads + 7) + 3
    ensures var s := Run(Init(threads), steps); var s' := RunRounds(s, rounds);
            s'.closer == Done(s.seqNum) && s'.seqNum == s'.sendNum == s.seqNum
  {
    hide Run, AllFair, RunRounds, Init, Invariant, NobodyDraws, AllLoad;
    Reachable(threads, steps);
    var s := Run(Init(threads), steps);
    var n := (s.seqNum - s.sendNum) * (2 * threads + 7);
    assert rounds[..n] + rounds[n..] == rounds;
    CloseFrom(s, rounds[..n], rounds[n..]);
  }

  lemma BehindOrDone(s: Pool)
    requires Invariant(s)
    ensures s.sendNum <= s.seqNum
  {
  }

  // ---------------------------------------------------------------- and can be reached

  /** The writer queues `count` messages before any thread wakes up. */
  lemma {:induction false} DrawMany(threads: nat, count: nat) returns (steps: seq<Step>)
    ensures var s := Run(Init(threads), steps);
            s.seqNum == count && s.closer.Waiting? && s.producer.Free? && NoneAsleep(s.workers)
  {
    steps := [];
    assert Run(Init(threads), []) == Init(threads);
    if count > 0 {
      steps := DrawMany(threads, count - 1);
      var s, more := Run(Init(threads), steps), [Draw, Enqueue, Notify(0)];
      RunAppend(Init(threads), steps, more);
      var s1 := Next(s, Draw);
      var s2 := Next(s1, Enqueue);
      assert more[1..] == [Enqueue, Notify(0)] && more[1..][1..] == [Notify(0)] && [Notify(0)][1..] == [];
      assert Run(s2, [Notify(0)]) == Run(Next(s2, Notify(0)), []) == Next(s2, Notify(0));
      assert Run(s1, more[1..]) == Run(s2, [Notify(0)]);
      assert Run(s, more) == Run(s1, more[1..]);
      hide Run;
      steps := steps + more;
    }
  }

  lemma {:induction false} FullRoundsLoad(threads: nat, count: nat)
    ensures NobodyDraws(FullRounds(threads, count)) && AllLoad(FullRounds(threads, count))
  {
    if count > 0 {
      FullRoundsLoad(threads, count - 1);
      var round := FullRound(threads);
      assert round[1] == SeqLoader && round[2] == SendLoader;
      assert Loads(round);
    }
  }

  /** Any number of messages can be written and closed. */
  lemma CloseIsReachable(threads: nat, count: nat) returns (steps: seq<Step>)
    requires threads > 0
    ensures var s := Run(Init(threads), steps); s.seqNum == count && s.closer == Done(count)
  {
    hide Run, Init, Invariant, AllFair, RunRounds, FullRounds;
    var before := DrawMany(threads, count);
    var s := Run(Init(threads), before);
    Reachable(threads, before);
    var rounds := FullRounds(threads, (s.seqNum - s.sendNum) * (2 * threads + 7) + 3);
    FullRoundsFair(s, |rounds|);
    FullRoundsLoad(threads, |rounds|);
    CloseReturns(threads, before, rounds);
    var more := RoundsAreSteps(s, rounds);
    RunAppend(Init(threads), before, more);
    steps := before + more;
  }
}
