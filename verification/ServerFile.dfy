/** The server's side of a write: each message's bytes go to the end of the file, whatever position it
    asks for, in the order the server's pool gets to them. When that is the file the client meant. */
module ServerFile {
  import opened Bytes
  import opened OutputFile

  predicate Listed(order: seq<nat>, n: nat) { forall k :: 0 <= k < |order| ==> order[k] < n }

  /** The file after the messages `order` lists have been appended, in that order. */
  function Executed(messages: seq<Message>, order: seq<nat>): seq<Byte>
    requires Listed(order, |messages|)
  {
    if order == [] then []
    else Executed(messages, order[..|order| - 1]) + messages[order[|order| - 1]].data
  }

  /** Each message once. */
  predicate Permutes(order: seq<nat>, n: nat)
  {
    Listed(order, n) && (forall i: nat :: i < n ==> i in order)
    && forall j, k :: 0 <= j < |order| && 0 <= k < |order| && order[j] == order[k] ==> j == k
  }

  /** Every message with data gets its turn when the file ends at the position it asks for. */
  predicate InPlace(messages: seq<Message>, order: seq<nat>)
    requires Listed(order, |messages|)
  {
    order == []
    || (var k := |order| - 1; var m := messages[order[k]];
        InPlace(messages, order[..k]) && (m.data != [] ==> m.fp == |Executed(messages, order[..k])|))
  }

  /** Same positions and lengths, any bytes. */
  predicate SameShape(messages: seq<Message>, others: seq<Message>)
  {
    |messages| == |others|
    && forall i :: 0 <= i < |messages| ==> messages[i].fp == others[i].fp && |messages[i].data| == |others[i].data|
  }

  lemma {:induction false} ShapeDecides(messages: seq<Message>, others: seq<Message>, order: seq<nat>)
    requires SameShape(messages, others) && Listed(order, |messages|)
    ensures |Executed(messages, order)| == |Executed(others, order)|
    ensures InPlace(messages, order) <==> InPlace(others, order)
  {
    if order != [] {
      ShapeDecides(messages, others, order[..|order| - 1]);
    }
  }

  // ---------------------------------------------------------------- in place, the file is right

  /** `m`'s bytes stand in `file` where it asks for. */
  predicate Stands(file: seq<Byte>, m: Message)
  {
    m.data != [] ==> m.fp + |m.data| <= |file| && file[m.fp..m.fp + |m.data|] == m.data
  }

  lemma StandsLonger(file: seq<Byte>, more: seq<Byte>, m: Message)
    requires Stands(file, m)
    ensures Stands(file + more, m)
  {
    if m.data != [] {
      assert (file + more)[m.fp..m.fp + |m.data|] == file[m.fp..m.fp + |m.data|];
    }
  }

  /** Byte `x` belongs to message `m`. */
  predicate Covers(m: Message, x: nat) { m.fp <= x < m.fp + |m.data| }

  lemma {:induction false} AllStand(messages: seq<Message>, order: seq<nat>)
    requires Listed(order, |messages|) && InPlace(messages, order)
    ensures forall k :: 0 <= k < |order| ==> Stands(Executed(messages, order), messages[order[k]])
  {
    if order != [] {
      var front, m := order[..|order| - 1], messages[order[|order| - 1]];
      var before := Executed(messages, front);
      AllStand(messages, front);
      forall k | 0 <= k < |order| ensures Stands(before + m.data, messages[order[k]]) {
        if k < |front| { StandsLonger(before, m.data, messages[front[k]]); }
      }
    }
  }

  lemma {:induction false} AllCovered(messages: seq<Message>, order: seq<nat>, x: nat) returns (k: nat)
    requires Listed(order, |messages|) && InPlace(messages, order) && x < |Executed(messages, order)|
    ensures k < |order| && Covers(messages[order[k]], x)
  {
    var front := order[..|order| - 1];
    if x < |Executed(messages, front)| {
      k := AllCovered(messages, front, x);
    } else {
      k := |order| - 1;
    }
  }

  lemma WriteStandingLength(file: seq<Byte>, so: seq<Byte>, m: Message)
    requires Stands(file, m) && |so| <= |file|
    ensures |so| <= |WriteAt(so, m.fp, m.data)| <= |file|
    ensures m.data != [] ==> m.fp + |m.data| <= |WriteAt(so, m.fp, m.data)|
  {
    if m.data != [] {
      WriteAtLength(so, m.fp, m.data);
    }
  }

  lemma WriteStanding(file: seq<Byte>, so: seq<Byte>, m: Message, x: nat)
    requires Stands(file, m) && |so| <= |file| && x < |WriteAt(so, m.fp, m.data)|
    ensures WriteAt(so, m.fp, m.data)[x] ==
            if Covers(m, x) then m.data[x - m.fp] else if x < |so| then so[x] else 0
    ensures Covers(m, x) ==> m.data[x - m.fp] == file[x]
  {
    if m.data != [] {
      WriteAtByte(so, m.fp, m.data, x);
      hide WriteAt;
      if Covers(m, x) { assert file[m.fp..m.fp + |m.data|][x - m.fp] == file[x]; }
    }
  }

  predicate AllStandIn(file: seq<Byte>, messages: seq<Message>)
  {
    forall i :: 0 <= i < |messages| ==> Stands(file, messages[i])
  }

  lemma {:induction false} ReplayLength(file: seq<Byte>, messages: seq<Message>)
    requires AllStandIn(file, messages)
    ensures |Replay(messages)| <= |file|
  {
    if messages != [] {
      ReplayLength(file, messages[..|messages| - 1]);
      WriteStandingLength(file, Replay(messages[..|messages| - 1]), messages[|messages| - 1]);
    }
  }

  /** Positional writes of messages that stand in `file` reproduce it wherever one of them covers it. */
  lemma {:induction false} ReplayStanding(file: seq<Byte>, messages: seq<Message>, i: nat, x: nat)
    requires AllStandIn(file, messages) && i < |messages| && Covers(messages[i], x)
    ensures x < |Replay(messages)| <= |file| && Replay(messages)[x] == file[x]
  {
    var front, last := messages[..|messages| - 1], messages[|messages| - 1];
    ReplayLength(file, messages);
    ReplayLength(file, front);
    WriteStandingLength(file, Replay(front), last);
    if i < |front| {
      ReplayStanding(file, front, i, x);
    }
    WriteStanding(file, Replay(front), last, x);
  }

  lemma OrderHasAll(messages: seq<Message>, order: seq<nat>)
    requires Permutes(order, |messages|) && InPlace(messages, order)
    ensures AllStandIn(Executed(messages, order), messages)
  {
    AllStand(messages, order);
    hide Executed, InPlace, Stands;
    forall i: nat | i < |messages| ensures Stands(Executed(messages, order), messages[i]) {
      assert i in order;
    }
  }

  lemma InPlaceIsRight(messages: seq<Message>, order: seq<nat>)
    requires Permutes(order, |messages|) && InPlace(messages, order)
    ensures Executed(messages, order) == Replay(messages)
  {
    var file, replay := Executed(messages, order), Replay(messages);
    OrderHasAll(messages, order);
    ReplayLength(file, messages);
    hide Executed, InPlace, Replay;
    if file != [] {
      var last := AllCovered(messages, order, |file| - 1);
      ReplayStanding(file, messages, order[last], |file| - 1);
    }
    forall x: nat | x < |file| ensures replay[x] == file[x] {
      var k := AllCovered(messages, order, x);
      ReplayStanding(file, messages, order[k], x);
    }
  }

  // ---------------------------------------------------------------- out of place, some file is wrong

  /** The same messages with zeros for data, but for a 1 at the start of message `i`. */
  function Marked(messages: seq<Message>, i: nat): seq<Message>
  {
    seq(|messages|, j requires 0 <= j < |messages| =>
      messages[j].(data := seq(|messages[j].data|, k => if j == i && k == 0 then 1 else 0)))
  }

  lemma {:induction false} MarkAppended(messages: seq<Message>, order: seq<nat>, k: nat)
    requires Listed(order, |messages|) && k < |order| && messages[order[k]].data != []
    requires messages[order[k]].data[0] == 1
    ensures var at := |Executed(messages, order[..k])|;
            at < |Executed(messages, order)| && Executed(messages, order)[at] == 1
  {
    var front := order[..|order| - 1];
    if k < |front| {
      assert front[..k] == order[..k] && front[k] == order[k];
      MarkAppended(messages, front, k);
    } else {
      assert front == order[..k];
    }
  }

  lemma ReplayLast(messages: seq<Message>, n: nat)
    requires 0 < n <= |messages|
    ensures Replay(messages[..n]) == WriteAt(Replay(messages[..n - 1]), messages[n - 1].fp, messages[n - 1].data)
  {
    hide WriteAt;
    assert messages[..n][..n - 1] == messages[..n - 1];
  }

  /** In one message only the start of the marked one is not zero. */
  lemma MarkIsFirst(messages: seq<Message>, i: nat, j: nat, k: nat)
    requires i < |messages| && j < |messages| && k < |messages[j].data|
    ensures Marked(messages, i)[j].fp == messages[j].fp && |Marked(messages, i)[j].data| == |messages[j].data|
    ensures Marked(messages, i)[j].data[k] != 0 ==> j == i && k == 0
  {
  }

  lemma {:induction false} MarkWritten(messages: seq<Message>, i: nat, n: nat, x: nat)
    requires i < |messages| && n <= |messages| && x < |Replay(Marked(messages, i)[..n])|
    ensures Replay(Marked(messages, i)[..n])[x] != 0 ==> x == messages[i].fp
    decreases n
  {
    if n > 0 {
      var marked := Marked(messages, i);
      ReplayLast(marked, n);
      var so, m := Replay(marked[..n - 1]), marked[n - 1];
      if m.data != [] {
        WriteAtByte(so, m.fp, m.data, x);
        if m.fp <= x < m.fp + |m.data| { MarkIsFirst(messages, i, n - 1, x - m.fp); }
      }
      hide WriteAt, Replay;
      if x < |so| { MarkWritten(messages, i, n - 1, x); }
    }
  }

  lemma OutOfPlaceIsWrong(messages: seq<Message>, order: seq<nat>, k: nat)
    requires Listed(order, |messages|) && k < |order|
    requires messages[order[k]].data != [] && messages[order[k]].fp != |Executed(messages, order[..k])|
    ensures SameShape(messages, Marked(messages, order[k]))
    ensures Executed(Marked(messages, order[k]), order) != Replay(Marked(messages, order[k]))
  {
    var i := order[k];
    var marked := Marked(messages, i);
    assert SameShape(messages, marked);
    ShapeDecides(messages, marked, order[..k]);
    MarkAppended(marked, order, k);
    var at := |Executed(marked, order[..k])|;
    assert marked[..|messages|] == marked;
    if at < |Replay(marked)| { MarkWritten(messages, i, |messages|, at); }
  }

  lemma {:induction false} NotInPlace(messages: seq<Message>, order: seq<nat>) returns (k: nat)
    requires Listed(order, |messages|) && !InPlace(messages, order)
    ensures k < |order| && messages[order[k]].data != []
    ensures messages[order[k]].fp != |Executed(messages, order[..k])|
  {
    var front := order[..|order| - 1];
    if InPlace(messages, front) {
      k := |order| - 1;
    } else {
      k := NotInPlace(messages, front);
      assert front[..k] == order[..k];
    }
  }

  /** Whatever the bytes are, appending in this order makes the file that positional writes make. */
  ghost predicate AlwaysRight(messages: seq<Message>, order: seq<nat>)
    requires Permutes(order, |messages|)
  {
    forall others :: SameShape(messages, others) ==> Executed(others, order) == Replay(others)
  }

  /** That is so exactly when every message with data gets its turn when the file ends where it asks for. */
  lemma AlwaysRightIffInPlace(messages: seq<Message>, order: seq<nat>)
    requires Permutes(order, |messages|)
    ensures AlwaysRight(messages, order) <==> InPlace(messages, order)
  {
    if InPlace(messages, order) {
      forall others | SameShape(messages, others) ensures Executed(others, order) == Replay(others) {
        ShapeDecides(messages, others, order);
        InPlaceIsRight(others, order);
      }
    } else {
      var k := NotInPlace(messages, order);
      OutOfPlaceIsWrong(messages, order, k);
    }
  }

  // ---------------------------------------------------------------- the same, of a program's calls

  function InSequence(n: nat): (order: seq<nat>)
    ensures |order| == n && forall k :: 0 <= k < n ==> order[k] == k
  {
    seq(n, i requires 0 <= i < n => i)
  }

  lemma {:induction false} SequenceAppends(messages: seq<Message>, n: nat)
    requires n <= |messages|
    ensures Executed(messages, InSequence(n)) == Payload(messages[..n])
    decreases n
  {
    if n > 0 {
      assert InSequence(n)[..n - 1] == InSequence(n - 1);
      assert messages[..n][..n - 1] == messages[..n - 1];
      SequenceAppends(messages, n - 1);
    } else {
      assert InSequence(0) == [];
    }
  }

  /** Each call's write as one message. */
  function Calls(ops: seq<Op>, pos: nat): seq<Message>
    requires Allowed(ops, pos)
    decreases |ops|
  {
    if ops == [] then []
    else match ops[0]
      case Write(data) => [Message(0, pos, data)] + Calls(ops[1..], pos + |data|)
      case Seek(offset, whence) => Calls(ops[1..], SeekTarget(pos, offset, whence))
  }

  /** Every write of some bytes is made at the end of what has been written. */
  predicate AtEnd(ops: seq<Op>, end: nat, pos: nat)
    requires Allowed(ops, pos)
    decreases |ops|
  {
    ops == []
    || match ops[0]
       case Write(data) => (data != [] ==> pos == end) && AtEnd(ops[1..], end + |data|, pos + |data|)
       case Seek(offset, whence) => AtEnd(ops[1..], end, SeekTarget(pos, offset, whence))
  }

  /** The same seeks, and writes of as many bytes. */
  predicate SameCalls(ops: seq<Op>, others: seq<Op>)
  {
    |ops| == |others|
    && forall i :: 0 <= i < |ops| ==>
         if ops[i].Write? then others[i].Write? && |others[i].data| == |ops[i].data| else others[i] == ops[i]
  }

  lemma ExtendByOne(messages: seq<Message>, m: Message)
    ensures Replay(messages + [m]) == WriteAt(Replay(messages), m.fp, m.data)
    ensures Payload(messages + [m]) == Payload(messages) + m.data
  {
    assert (messages + [m])[..|messages|] == messages;
  }

  lemma Prepend(before: seq<Message>, m: Message, rest: seq<Message>)
    ensures var all := before + ([m] + rest);
            all == (before + [m]) + rest && |before| < |all| && all[..|before|] == before && all[|before|] == m
    ensures |before + [m]| == |before| + 1
  {
  }

  lemma NothingMore(before: seq<Message>, stream: seq<Byte>)
    ensures before + [] == before && stream + [] == stream && [] + stream == stream
  {
  }

  lemma {:induction false} CallsReplay(before: seq<Message>, d: Direct, ops: seq<Op>)
    requires Allowed(ops, d.pos) && Replay(before) == d.file
    ensures Replay(before + Calls(ops, d.pos)) == ApplyAll(d, ops).file
    decreases |ops|
  {
    hide Replay, WriteAt;
    if ops == [] {
      NothingMore(before, []);
    } else if ops[0].Write? {
      var m := Message(0, d.pos, ops[0].data);
      ExtendByOne(before, m);
      Prepend(before, m, Calls(ops[1..], d.pos + |ops[0].data|));
      CallsReplay(before + [m], Apply(d, ops[0]), ops[1..]);
    } else {
      CallsReplay(before, Apply(d, ops[0]), ops[1..]);
    }
  }

  lemma {:induction false} CallsPayload(before: seq<Message>, ops: seq<Op>, pos: nat)
    requires Allowed(ops, pos)
    ensures Payload(before + Calls(ops, pos)) == Payload(before) + Written(ops)
    decreases |ops|
  {
    hide Payload;
    NothingMore(before, Payload(before));
    if ops != [] {
      if ops[0].Write? {
        var m := Message(0, pos, ops[0].data);
        ExtendByOne(before, m);
        Prepend(before, m, Calls(ops[1..], pos + |m.data|));
        CallsPayload(before + [m], ops[1..], pos + |m.data|);
        assert (Payload(before) + m.data) + Written(ops[1..]) == Payload(before) + (m.data + Written(ops[1..]));
      } else {
        NothingMore([], Written(ops[1..]));
        CallsPayload(before, ops[1..], SeekTarget(pos, ops[0].offset, ops[0].whence));
      }
    }
  }

  /** The first `n` messages are in place when appended in sequence. */
  lemma {:induction false} SequenceInPlace(messages: seq<Message>, n: nat)
    requires n < |messages|
    ensures InPlace(messages, InSequence(n + 1)) <==>
            InPlace(messages, InSequence(n)) && (messages[n].data != [] ==> messages[n].fp == |Payload(messages[..n])|)
  {
    assert InSequence(n + 1)[..n] == InSequence(n);
    SequenceAppends(messages, n);
  }

  /** The first call of some is a write. */
  lemma WriteFirst(ops: seq<Op>, end: nat, pos: nat)
    requires Allowed(ops, pos) && ops != [] && ops[0].Write?
    ensures var data := ops[0].data;
            Allowed(ops[1..], pos + |data|)
            && Calls(ops, pos) == [Message(0, pos, data)] + Calls(ops[1..], pos + |data|)
            && (AtEnd(ops, end, pos) <==>
                (data != [] ==> pos == end) && AtEnd(ops[1..], end + |data|, pos + |data|))
  {
  }

  /** What one message adds to all being in place. */
  lemma OneInPlace(before: seq<Message>, m: Message, rest: seq<Message>, restInPlace: bool)
    requires var all := (before + [m]) + rest;
             InPlace(all, InSequence(|all|)) <==> InPlace(all, InSequence(|before + [m]|)) && restInPlace
    ensures var all := before + ([m] + rest);
            InPlace(all, InSequence(|all|)) <==>
            InPlace(all, InSequence(|before|)) && (m.data != [] ==> m.fp == |Payload(before)|) && restInPlace
  {
    hide InPlace, Payload, InSequence;
    Prepend(before, m, rest);
    SequenceInPlace(before + ([m] + rest), |before|);
  }

  lemma {:induction false} AtEndIsInPlace(before: seq<Message>, ops: seq<Op>, pos: nat)
    requires Allowed(ops, pos)
    ensures var all := before + Calls(ops, pos);
            InPlace(all, InSequence(|all|)) <==>
            InPlace(all, InSequence(|before|)) && AtEnd(ops, |Payload(before)|, pos)
    decreases |ops|
  {
    hide InPlace, Payload, InSequence;
    if ops == [] {
      NothingMore(before, []);
    } else if ops[0].Write? {
      hide Calls, AtEnd, Allowed;
      var m := Message(0, pos, ops[0].data);
      WriteFirst(ops, |Payload(before)|, pos);
      ExtendByOne(before, m);
      AtEndIsInPlace(before + [m], ops[1..], pos + |m.data|);
      OneInPlace(before, m, Calls(ops[1..], pos + |m.data|),
                 AtEnd(ops[1..], |Payload(before)| + |m.data|, pos + |m.data|));
    } else {
      AtEndIsInPlace(before, ops[1..], SeekTarget(pos, ops[0].offset, ops[0].whence));
    }
  }

  lemma {:induction false} SameCallsFare(ops: seq<Op>, others: seq<Op>, end: nat, pos: nat)
    requires Allowed(ops, pos) && SameCalls(ops, others)
    ensures Allowed(others, pos) && (AtEnd(ops, end, pos) <==> AtEnd(others, end, pos))
    decreases |ops|
  {
    if ops != [] {
      assert SameCalls(ops[1..], others[1..]);
      match ops[0]
      case Write(data) => SameCallsFare(ops[1..], others[1..], end + |data|, pos + |data|);
      case Seek(offset, whence) => SameCallsFare(ops[1..], others[1..], end, SeekTarget(pos, offset, whence));
    }
  }

  /** The calls with the data of these messages. */
  function Refill(ops: seq<Op>, pos: nat, messages: seq<Message>): (others: seq<Op>)
    requires Allowed(ops, pos) && |messages| == |Calls(ops, pos)|
    decreases |ops|
  {
    if ops == [] then []
    else match ops[0]
      case Write(data) => [Write(messages[0].data)] + Refill(ops[1..], pos + |data|, messages[1..])
      case Seek(offset, whence) => [ops[0]] + Refill(ops[1..], SeekTarget(pos, offset, whence), messages)
  }

  predicate Unnumbered(messages: seq<Message>) { forall i :: 0 <= i < |messages| ==> messages[i].seqNum == 0 }

  lemma SameShapeRest(m: Message, rest: seq<Message>, messages: seq<Message>)
    requires SameShape([m] + rest, messages) && Unnumbered(messages) && m.seqNum == 0
    ensures messages != [] && SameShape(rest, messages[1..]) && Unnumbered(messages[1..])
    ensures m.(data := messages[0].data) == messages[0] && |m.data| == |messages[0].data|
    ensures messages == [messages[0]] + messages[1..]
  {
    var all := [m] + rest;
    assert all[0] == m;
    forall i | 0 <= i < |rest|
      ensures rest[i].fp == messages[1..][i].fp && |rest[i].data| == |messages[1..][i].data|
    {
      assert all[i + 1] == rest[i];
    }
  }

  lemma SameCallsCons(op: Op, other: Op, ops: seq<Op>, others: seq<Op>)
    requires SameCalls(ops, others)
    requires if op.Write? then other.Write? && |other.data| == |op.data| else other == op
    ensures SameCalls([op] + ops, [other] + others)
  {
  }

  lemma {:induction false} RefillCalls(ops: seq<Op>, pos: nat, messages: seq<Message>)
    requires Allowed(ops, pos) && SameShape(Calls(ops, pos), messages) && Unnumbered(messages)
    ensures var others := Refill(ops, pos, messages);
            SameCalls(ops, others) && Allowed(others, pos) && Calls(others, pos) == messages
    decreases |ops|
  {
    if ops != [] {
      var op, rest := ops[0], ops[1..];
      var others := Refill(ops, pos, messages);
      assert ops == [op] + rest;
      if op.Write? {
        var next := pos + |op.data|;
        SameShapeRest(Message(0, pos, op.data), Calls(rest, next), messages);
        RefillCalls(rest, next, messages[1..]);
        var tail := Refill(rest, next, messages[1..]);
        hide SameShape, Unnumbered, SameCalls;
        assert others == [Write(messages[0].data)] + tail && others[1..] == tail;
        SameCallsCons(op, others[0], rest, tail);
      } else {
        var next := SeekTarget(pos, op.offset, op.whence);
        RefillCalls(rest, next, messages);
        var tail := Refill(rest, next, messages);
        hide SameShape, Unnumbered, SameCalls;
        assert others == [op] + tail && others[1..] == tail;
        SameCallsCons(op, op, rest, tail);
      }
    }
  }

  /** The file that appending the bytes in the order they were written makes is the direct one. */
  predicate AppendIsDirect(ops: seq<Op>)
    requires Allowed(ops, 0)
  {
    Written(ops) == ApplyAll(Direct([], 0), ops).file
  }

  /** Both files, of the calls and of their messages. */
  lemma CallsMake(ops: seq<Op>)
    requires Allowed(ops, 0)
    ensures Replay(Calls(ops, 0)) == ApplyAll(Direct([], 0), ops).file
    ensures Executed(Calls(ops, 0), InSequence(|Calls(ops, 0)|)) == Written(ops)
    ensures InPlace(Calls(ops, 0), InSequence(|Calls(ops, 0)|)) <==> AtEnd(ops, 0, 0)
  {
    var calls := Calls(ops, 0);
    assert [] + calls == calls && calls[..|calls|] == calls && InSequence(0) == [];
    NothingMore([], Written(ops));
    CallsReplay([], Direct([], 0), ops);
    CallsPayload([], ops, 0);
    SequenceAppends(calls, |calls|);
    AtEndIsInPlace([], ops, 0);
  }

  lemma AtEndIsDirect(ops: seq<Op>)
    requires Allowed(ops, 0) && AtEnd(ops, 0, 0)
    ensures AppendIsDirect(ops)
  {
    CallsMake(ops);
    SequencePermutes(|Calls(ops, 0)|);
    hide InPlace, Calls, Replay, Executed, Written, ApplyAll, Allowed;
    InPlaceIsRight(Calls(ops, 0), InSequence(|Calls(ops, 0)|));
  }

  lemma SequencePermutes(n: nat)
    ensures Permutes(InSequence(n), n)
  {
    forall i: nat | i < n ensures i in InSequence(n) { assert InSequence(n)[i] == i; }
  }

  lemma {:induction false} CallsUnnumbered(ops: seq<Op>, pos: nat)
    requires Allowed(ops, pos)
    ensures Unnumbered(Calls(ops, pos))
    decreases |ops|
  {
    if ops != [] {
      match ops[0]
      case Write(data) => CallsUnnumbered(ops[1..], pos + |data|);
      case Seek(offset, whence) => CallsUnnumbered(ops[1..], SeekTarget(pos, offset, whence));
    }
  }

  lemma NotAtEndIsWrong(ops: seq<Op>) returns (others: seq<Op>)
    requires Allowed(ops, 0) && !AtEnd(ops, 0, 0)
    ensures SameCalls(ops, others) && Allowed(others, 0) && !AppendIsDirect(others)
  {
    var calls := Calls(ops, 0);
    var order := InSequence(|calls|);
    CallsMake(ops);
    CallsUnnumbered(ops, 0);
    hide InPlace, Calls, Replay, Executed, Written, ApplyAll, Allowed, AtEnd, SameCalls, SameShape, InSequence;
    var k := NotInPlace(calls, order);
    OutOfPlaceIsWrong(calls, order, k);
    var marked := Marked(calls, order[k]);
    RefillCalls(ops, 0, marked);
    others := Refill(ops, 0, marked);
    CallsMake(others);
  }

  /** Whatever the bytes written are, appending them makes the file that direct writes make exactly when
      every write is made at the end of what has been written. */
  lemma AppendIsDirectIffAtEnd(ops: seq<Op>)
    requires Allowed(ops, 0)
    ensures (forall others :: SameCalls(ops, others) ==> Allowed(others, 0) && AppendIsDirect(others))
            <==> AtEnd(ops, 0, 0)
  {
    if AtEnd(ops, 0, 0) {
      forall others | SameCalls(ops, others) ensures Allowed(others, 0) && AppendIsDirect(others) {
        SameCallsFare(ops, others, 0, 0);
        AtEndIsDirect(others);
      }
    } else {
      var others := NotAtEndIsWrong(ops);
    }
  }

  /** For instance: write "ab", go back, write "c". Appended that is "abc", and written directly "cb". */
  lemma RewindDiffers()
    ensures var ops := [Write([97, 98]), Seek(0, Set), Write([99])];
            Allowed(ops, 0) && Written(ops) == [97, 98, 99] && ApplyAll(Direct([], 0), ops).file == [99, 98]
  {
    var ops := [Write([97, 98]), Seek(0, Set), Write([99])];
    var ab, c: seq<Byte> := [97, 98], [99];
    assert ops[1..] == [Seek(0, Set), Write(c)] && ops[1..][1..] == [Write(c)] && ops[1..][1..][1..] == [];
    assert WriteAt([], 0, ab) == ab;
    assert WriteAt(ab, 0, c) == [99, 98];
    assert Written([Write(c)]) == c;
    var d1, d2 := Direct(ab, 2), Direct(ab, 0);
    assert Apply(Direct([], 0), ops[0]) == d1 && Apply(d1, ops[1]) == d2;
    assert ApplyAll(d2, [Write(c)]) == Direct([99, 98], 1);
  }
}
