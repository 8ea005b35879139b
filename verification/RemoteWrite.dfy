/** The write path to an uncompressed output file, put together: what a program writes, what the transfer
    threads send, and what the server's pool appends to its file. */
module RemoteWrite {
  import opened Bytes
  import opened OutputFile
  import opened ServerFile
  import Queue = DeliveryQueue

  /** The messages in the order the threads sent them. */
  function Arrived(messages: seq<Message>, log: seq<nat>): seq<Message>
    requires forall i :: 0 <= i < |log| ==> log[i] < |messages|
  {
    seq(|log|, i requires 0 <= i < |log| => messages[log[i]])
  }

  /** What an output file's session has made of the calls. */
  predicate MadeOf(messages: seq<Message>, ops: seq<Op>)
    requires Allowed(ops, 0)
  {
    Replay(messages) == ApplyAll(Direct([], 0), ops).file && Payload(messages) == Written(ops)
  }

  /** The threads have run, and close's wait loop has ended with nothing drawn since. */
  ghost predicate Closed(threads: nat, steps: seq<Queue.Step>, count: nat)
  {
    var s := Queue.Run(Queue.Init(threads), steps); s.seqNum == count && s.closer == Queue.Done(count)
  }

  /** Closing ends: if all has been drawn when close's wait begins, every fair schedule in which the closer keeps
      loading leads there. */
  lemma CloseEnds(threads: nat, steps: seq<Queue.Step>, rounds: seq<seq<Queue.Actor>>, count: nat)
    returns (more: seq<Queue.Step>)
    requires threads > 0 && Queue.NobodyDraws(rounds) && Queue.AllLoad(rounds)
    requires var s := Queue.Run(Queue.Init(threads), steps);
             s.seqNum == count && s.closer.Waiting? && Queue.AllFair(s, rounds)
             && |rounds| >= (count - s.sendNum) * (2 * threads + 7) + 3
    ensures Queue.Run(Queue.Init(threads), steps + more)
            == Queue.RunRounds(Queue.Run(Queue.Init(threads), steps), rounds)
    ensures Closed(threads, steps + more, count)
  {
    hide Queue.Run, Queue.Init, Queue.AllFair, Queue.RunRounds, Queue.AllLoad;
    Queue.CloseReturns(threads, steps, rounds);
    more := Queue.RoundsAreSteps(Queue.Run(Queue.Init(threads), steps), rounds);
    Queue.RunAppend(Queue.Init(threads), steps, more);
  }

  /** Some run sends `count` messages and closes. */
  ghost predicate CanClose(threads: nat, count: nat)
  {
    exists steps: seq<Queue.Step> :: Closed(threads, steps, count)
  }

  /** Any number of messages can be sent and closed. */
  lemma SomeClose(threads: nat, count: nat) returns (steps: seq<Queue.Step>)
    requires threads > 0
    ensures Closed(threads, steps, count)
  {
    hide Queue.Run, Queue.Init;
    steps := Queue.CloseIsReachable(threads, count);
  }

  /** Whatever the threads do, once close's wait loop has ended the messages have been sent once each, in
      the order they were made. */
  lemma MessagesArriveInOrder(messages: seq<Message>, threads: nat, steps: seq<Queue.Step>)
    requires Closed(threads, steps, |messages|)
    ensures var log := Queue.Run(Queue.Init(threads), steps).log;
            (forall i :: 0 <= i < |log| ==> log[i] < |messages|) && Arrived(messages, log) == messages
  {
    Queue.DeliveredInOrder(threads, steps);
    Queue.CloseWaitsForAll(threads, steps);
    hide Queue.Run;
  }

  /** What has become of the calls on the server, its pool having executed in `order` what arrived as `log`:
      the bytes written, one write behind the other, if it keeps the order, which is the file direct writes
      make if each was made at the end; and that file in any order if each message gets its turn when the
      file ends where it asks for. */
  ghost predicate OnServer(ops: seq<Op>, messages: seq<Message>, log: seq<nat>, order: seq<nat>)
    requires Allowed(ops, 0) && Permutes(order, |messages|)
  {
    (forall i :: 0 <= i < |log| ==> log[i] < |messages|) && |log| == |messages|
    && Executed(Arrived(messages, log), InSequence(|messages|)) == Written(ops)
    && (AtEnd(ops, 0, 0) ==>
          Executed(Arrived(messages, log), InSequence(|messages|)) == ApplyAll(Direct([], 0), ops).file)
    && (InPlace(messages, order) ==> Executed(Arrived(messages, log), order) == ApplyAll(Direct([], 0), ops).file)
  }

  lemma ServerFileIsDirect(ops: seq<Op>, messages: seq<Message>, threads: nat, steps: seq<Queue.Step>, order: seq<nat>)
    requires Allowed(ops, 0) && MadeOf(messages, ops) && Closed(threads, steps, |messages|)
    requires Permutes(order, |messages|)
    ensures OnServer(ops, messages, Queue.Run(Queue.Init(threads), steps).log, order)
  {
    MessagesArriveInOrder(messages, threads, steps);
    SequenceAppends(messages, |messages|);
    assert messages[..|messages|] == messages;
    hide Queue.Run, Replay, ApplyAll, Executed, InPlace, AtEnd, Written, Payload, Permutes;
    if AtEnd(ops, 0, 0) { AtEndIsDirect(ops); }
    if InPlace(messages, order) { InPlaceIsRight(messages, order); }
  }

  /** A program's writes and seeks on an output file, close included: whatever any number of transfer threads
      do until close's wait ends, and in whatever order the server's pool executes what arrives. */
  method WriteRemotely(ops: seq<Op>, bufferSize: nat, messageOffset: nat, poolTasks: seq<nat>)
    returns (messages: seq<Message>)
    requires messageOffset < bufferSize && Allowed(ops, 0) && |poolTasks| == |ops|
    ensures forall threads: nat, steps: seq<Queue.Step>, order: seq<nat> ::
              Closed(threads, steps, |messages|) && Permutes(order, |messages|) ==>
              OnServer(ops, messages, Queue.Run(Queue.Init(threads), steps).log, order)
    ensures forall threads: nat :: threads > 0 ==> CanClose(threads, |messages|)
  {
    messages := Session(ops, bufferSize, messageOffset, poolTasks);
    assert MadeOf(messages, ops);
    hide Closed, Permutes, OnServer, MadeOf, Queue.Run, Queue.Init;
    forall threads: nat, steps: seq<Queue.Step>, order: seq<nat>
      | Closed(threads, steps, |messages|) && Permutes(order, |messages|)
      ensures OnServer(ops, messages, Queue.Run(Queue.Init(threads), steps).log, order)
    {
      ServerFileIsDirect(ops, messages, threads, steps, order);
    }
    forall threads: nat | threads > 0 ensures CanClose(threads, |messages|) {
      var steps := SomeClose(threads, |messages|);
    }
  }
}
