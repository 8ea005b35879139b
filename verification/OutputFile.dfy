/** The client's write buffer: one file position, no compression. Whatever is buffered and however
    it is cut into messages, replaying the messages is the same as writing directly. */
module OutputFile {
  import opened Bytes

  // ---------------------------------------------------------------- direct positional writes

  function Zeros(n: nat): (z: seq<Byte>)
    ensures |z| == n
  {
    seq(n, i => 0)
  }

  /** A positional write: a gap before `at` reads as zeros, and writing nothing changes nothing. */
  function WriteAt(file: seq<Byte>, at: nat, data: seq<Byte>): seq<Byte>
  {
    if data == [] then file
    else
      var room := file + Zeros(Max(0, at + |data| - |file|));
      room[..at] + data + room[at + |data|..]
  }

  lemma WriteAtLength(file: seq<Byte>, at: nat, data: seq<Byte>)
    requires data != []
    ensures |WriteAt(file, at, data)| == Max(|file|, at + |data|)
  {
  }

  lemma WriteAtByte(file: seq<Byte>, at: nat, data: seq<Byte>, i: nat)
    requires data != [] && i < Max(|file|, at + |data|)
    ensures |WriteAt(file, at, data)| == Max(|file|, at + |data|)
    ensures WriteAt(file, at, data)[i] ==
            if at <= i < at + |data| then data[i - at] else if i < |file| then file[i] else 0
  {
  }

  /** Two writes, the second where the first ended, are one. */
  lemma WriteAtJoins(file: seq<Byte>, at: nat, a: seq<Byte>, b: seq<Byte>)
    ensures WriteAt(WriteAt(file, at, a), at + |a|, b) == WriteAt(file, at, a + b)
  {
    if a == [] {
      assert a + b == b;
    } else if b == [] {
      assert a + b == a;
    } else {
      var first, both := WriteAt(file, at, a), WriteAt(file, at, a + b);
      var second := WriteAt(first, at + |a|, b);
      WriteAtLength(file, at, a);
      WriteAtLength(first, at + |a|, b);
      WriteAtLength(file, at, a + b);
      hide WriteAt;
      forall i: nat | i < |both| ensures second[i] == both[i] {
        WriteAtByte(file, at, a + b, i);
        WriteAtByte(first, at + |a|, b, i);
        if i < |first| { WriteAtByte(file, at, a, i); }
      }
    }
  }

  // ---------------------------------------------------------------- messages

  /** What a transfer task sends: the bytes and where they go. */
  datatype Message = Message(seqNum: nat, fp: nat, data: seq<Byte>)

  /** The server's file after handling the messages in the order of the list. */
  function Replay(messages: seq<Message>): seq<Byte>
  {
    if messages == [] then []
    else var last := messages[|messages| - 1]; WriteAt(Replay(messages[..|messages| - 1]), last.fp, last.data)
  }

  /** The data of the messages, one behind the other. */
  function Payload(messages: seq<Message>): seq<Byte>
  {
    if messages == [] then [] else Payload(messages[..|messages| - 1]) + messages[|messages| - 1].data
  }

  /** Messages are numbered in the order they were made. */
  predicate Numbered(messages: seq<Message>)
  {
    forall i :: 0 <= i < |messages| ==> messages[i].seqNum == i
  }

  // ---------------------------------------------------------------- what the program asked for

  datatype Whence = Set | Current

  datatype Op =
    | Write(data: seq<Byte>)
    | Seek(offset: int, whence: Whence)

  datatype Direct = Direct(file: seq<Byte>, pos: nat)

  function SeekTarget(pos: nat, offset: int, whence: Whence): int
  {
    if whence == Set then offset else pos + offset
  }

  /** Seeks from the current position add up; one from the start forgets where it was made. */
  lemma SeeksCompose(pos: nat, a: int, b: int)
    ensures SeekTarget(pos, 0, Current) == pos
    ensures pos + a >= 0 ==> SeekTarget(pos + a, b, Current) == SeekTarget(pos, a + b, Current)
    ensures SeekTarget(pos, a, Set) == SeekTarget(0, a, Current)
  {
  }

  function Apply(d: Direct, op: Op): Direct
    requires op.Seek? ==> SeekTarget(d.pos, op.offset, op.whence) >= 0
  {
    match op
    case Write(data) => Direct(WriteAt(d.file, d.pos, data), d.pos + |data|)
    case Seek(offset, whence) => d.(pos := SeekTarget(d.pos, offset, whence))
  }

  /** No seek goes to a negative offset. */
  predicate Allowed(ops: seq<Op>, pos: nat)
    decreases |ops|
  {
    ops == [] ||
    match ops[0]
    case Write(data) => Allowed(ops[1..], pos + |data|)
    case Seek(offset, whence) =>
      SeekTarget(pos, offset, whence) >= 0 && Allowed(ops[1..], SeekTarget(pos, offset, whence))
  }

  function ApplyAll(d: Direct, ops: seq<Op>): Direct
    requires Allowed(ops, d.pos)
    decreases |ops|
  {
    if ops == [] then d else ApplyAll(Apply(d, ops[0]), ops[1..])
  }

  /** The bytes of all writes, one behind the other, wherever they were meant to go. */
  function Written(ops: seq<Op>): seq<Byte>
  {
    if ops == [] then [] else DataOf(ops[0]) + Written(ops[1..])
  }

  function DataOf(op: Op): seq<Byte> { if op.Write? then op.data else [] }

  // ---------------------------------------------------------------- two views of what was written

  /** The file that positional writes make, and the bytes in the order they were written. */
  datatype Image = Image(file: seq<Byte>, stream: seq<Byte>)

  function Put(im: Image, at: nat, data: seq<Byte>): Image { Image(WriteAt(im.file, at, data), im.stream + data) }

  function History(messages: seq<Message>): Image
  {
    if messages == [] then Image([], [])
    else var last := messages[|messages| - 1]; Put(History(messages[..|messages| - 1]), last.fp, last.data)
  }

  lemma HistoryMore(messages: seq<Message>, m: Message)
    ensures History(messages + [m]) == Put(History(messages), m.fp, m.data)
  {
    assert (messages + [m])[..|messages|] == messages;
  }

  lemma {:induction false} HistoryIs(messages: seq<Message>)
    ensures History(messages) == Image(Replay(messages), Payload(messages))
  {
    if messages != [] {
      HistoryIs(messages[..|messages| - 1]);
    }
  }

  lemma PutJoins(im: Image, at: nat, a: seq<Byte>, b: seq<Byte>)
    ensures Put(Put(im, at, a), at + |a|, b) == Put(im, at, a + b)
  {
    hide WriteAt;
    WriteAtJoins(im.file, at, a, b);
    assert (im.stream + a) + b == im.stream + (a + b);
  }

  /** Writing the next piece of `data` after the pieces before it. */
  lemma NextPiece(im: Image, at: nat, data: seq<Byte>, k: nat, m: nat)
    requires k <= m <= |data|
    ensures Put(Put(im, at, data[..k]), at + k, data[k..m]) == Put(im, at, data[..m])
  {
    hide Put;
    PutJoins(im, at, data[..k], data[k..m]);
    assert data[..k] + data[k..m] == data[..m];
  }

  lemma PutNothing(im: Image, at: nat)
    ensures Put(im, at, []) == im
  {
  }

  // ---------------------------------------------------------------- the buffer

  /** A copy behind some bytes keeps them. */
  lemma PatchKeeps(s: seq<Byte>, from: nat, at: nat, data: seq<Byte>)
    requires from <= at && at + |data| <= |s|
    ensures Patch(s, at, data)[from..at + |data|] == s[from..at] + data
  {
  }

  class OutputFile {
    const bufferSize: nat
    const messageOffset: nat // room for the message header and the file name
    var active: bool
    var buffer: array<Byte>
    var bufferIndex: nat
    var bufferFp: nat
    var bufferCnt: nat
    var filePos: nat
    var seqNum: nat
    var sent: seq<Message>   // what the transfer pool has been given

    ghost predicate Consistent()
      reads this, buffer
    {
      messageOffset < bufferSize == buffer.Length
      && bufferIndex == messageOffset + bufferCnt <= bufferSize
      && seqNum == |sent| && Numbered(sent)
    }

    /** Between calls the buffer also ends at the file position. */
    ghost predicate Valid()
      reads this, buffer
    {
      Consistent() && bufferFp + bufferCnt == filePos
    }

    ghost function Buffered(): (b: seq<Byte>)
      requires messageOffset + bufferCnt <= buffer.Length
      reads this`bufferCnt, this`buffer, buffer
      ensures |b| == bufferCnt
    {
      buffer[messageOffset..messageOffset + bufferCnt]
    }

    /** What the server's file will be once everything written so far has arrived. */
    ghost function Contents(): Image
      requires messageOffset + bufferCnt <= buffer.Length
      reads this`bufferCnt, this`buffer, this`sent, this`bufferFp, buffer
    {
      Put(History(sent), bufferFp, Buffered())
    }

    constructor (bufferSize: nat, messageOffset: nat)
      requires messageOffset < bufferSize
      ensures Valid() && active && fresh(buffer) && Contents() == Image([], []) && filePos == 0 && sent == []
    {
      this.bufferSize, this.messageOffset := bufferSize, messageOffset;
      active := true;
      buffer := new Byte[bufferSize](_ => 0);
      bufferIndex, bufferFp, bufferCnt := messageOffset, 0, 0;
      filePos, seqNum, sent := 0, 0, [];
    }

    /** Number the buffer, give it to the pool, and start a new one. */
    method Send()
      requires messageOffset + bufferCnt <= buffer.Length == bufferSize && seqNum == |sent| && Numbered(sent)
      modifies this`buffer, this`seqNum, this`sent
      ensures seqNum == |sent| && Numbered(sent) && fresh(buffer) && buffer.Length == bufferSize
      ensures sent == old(sent) + [Message(old(seqNum), bufferFp, old(Buffered()))]
      ensures History(sent) == old(Contents())
    {
      var message := Message(seqNum, bufferFp, buffer[messageOffset..messageOffset + bufferCnt]);
      HistoryMore(sent, message);
      seqNum := seqNum + 1;
      sent := sent + [message];
      buffer := new Byte[bufferSize](_ => 0);
    }

    /** Copy more bytes behind the buffered ones. */
    method CopyBehind(data: seq<Byte>)
      requires messageOffset + bufferCnt + |data| <= buffer.Length && bufferIndex == messageOffset + bufferCnt
      modifies this`bufferCnt, buffer
      ensures bufferCnt == old(bufferCnt) + |data| && Buffered() == old(Buffered()) + data
    {
      PatchKeeps(buffer[..], messageOffset, bufferIndex, data);
      hide Patch;
      CopyInto(buffer, bufferIndex, data);
      bufferCnt := bufferCnt + |data|;
      assert Buffered() == buffer[..][messageOffset..bufferIndex + |data|];
    }

    method Append(data: seq<Byte>)
      requires messageOffset + bufferCnt + |data| <= buffer.Length && bufferIndex == messageOffset + bufferCnt
      modifies this`bufferCnt, buffer
      ensures bufferCnt == old(bufferCnt) + |data|
      ensures Contents() == Put(old(Contents()), bufferFp + old(bufferCnt), data)
    {
      hide Put, History;
      PutJoins(History(sent), bufferFp, Buffered(), data);
      CopyBehind(data);
    }

    /** Send the buffer as it is and start an empty one for position `fp`. */
    method Restart(fp: nat)
      requires messageOffset + bufferCnt <= buffer.Length == bufferSize && seqNum == |sent| && Numbered(sent)
      requires messageOffset < bufferSize
      modifies this`bufferCnt, this`buffer, this`seqNum, this`sent, this`bufferIndex, this`bufferFp
      ensures Consistent() && fresh(buffer) && bufferCnt == 0 && bufferFp == fp && |sent| == old(|sent|) + 1
      ensures Contents() == old(Contents()) == History(sent)
    {
      hide Put, History, Numbered;
      Send();
      bufferIndex := messageOffset;
      bufferCnt := 0;
      bufferFp := fp;
      PutNothing(History(sent), bufferFp);
    }

    /** Fill the buffer, send it, and start the next one where it ended. */
    method Flush(chunk: seq<Byte>)
      requires Consistent() && bufferIndex + |chunk| <= bufferSize
      modifies this`bufferCnt, this`buffer, this`seqNum, this`sent, this`bufferIndex, this`bufferFp, buffer
      ensures Consistent() && fresh(buffer)
      ensures bufferCnt == 0 && bufferFp == old(bufferFp + bufferCnt) + |chunk|
      ensures Contents() == Put(old(Contents()), old(bufferFp + bufferCnt), chunk)
    {
      hide Put, History, Contents, Numbered;
      Append(chunk);
      Restart(bufferFp + bufferCnt);
    }

    /** The first `n` bytes of `data` have been taken, sent or buffered. */
    ghost predicate Taken(before: Image, data: seq<Byte>, fp: nat, n: nat)
      reads this, buffer
    {
      Consistent() && n <= |data| && bufferFp + bufferCnt == fp + n && Contents() == Put(before, fp, data[..n])
    }

    /** One round of the flush loop. */
    method FlushNext(ghost before: Image, data: seq<Byte>, fp: nat, bytesSent: nat, bytesToSend: nat)
      returns (sentNow: nat)
      requires Taken(before, data, fp, bytesSent) && bytesSent + bytesToSend == |data|
      modifies this`bufferCnt, this`buffer, this`seqNum, this`sent, this`bufferIndex, this`bufferFp, buffer
      ensures Taken(before, data, fp, bytesSent + sentNow) && fresh(buffer) && bufferIndex <= bufferSize
      ensures sentNow == Min(bytesToSend, bufferSize - old(bufferIndex)) && bufferCnt == 0
      ensures bytesToSend > 0 ==> sentNow > 0 || old(bufferCnt) > 0
      ensures bufferFp + bufferCnt == fp + bytesSent + sentNow
    {
      hide Put, History, Contents, Numbered;
      sentNow := bufferSize - bufferIndex;
      if bytesToSend < sentNow { sentNow := bytesToSend; }
      NextPiece(before, fp, data, bytesSent, bytesSent + sentNow);
      Flush(data[bytesSent..bytesSent + sentNow]);
    }

    lemma NothingTaken(data: seq<Byte>, fp: nat)
      requires Consistent() && bufferFp + bufferCnt == fp
      ensures Taken(Contents(), data, fp, 0) && bufferIndex <= bufferSize
    {
      PutNothing(Contents(), fp);
      assert data[..0] == [];
    }

    /** The flush loop: full buffers leave until the rest of `data` fits. */
    method FlushFull(data: seq<Byte>, fp: nat) returns (bytesSent: nat)
      requires Consistent() && bufferFp + bufferCnt == fp
      modifies this`bufferCnt, this`buffer, this`seqNum, this`sent, this`bufferIndex, this`bufferFp, buffer
      ensures Taken(old(Contents()), data, fp, bytesSent) && (buffer == old(buffer) || fresh(buffer))
      ensures bytesSent <= |data| && bufferIndex + |data| - bytesSent <= bufferSize
    {
      hide Put, History, Contents, Taken;
      ghost var before := Contents();
      hide Consistent;
      var bytesToSend: nat := |data|;
      bytesSent := 0;
      NothingTaken(data, fp);
      while bytesToSend > bufferSize - bufferIndex || bufferCnt + bufferFp != fp + bytesSent
        invariant Taken(before, data, fp, bytesSent) && bufferIndex <= bufferSize
        invariant buffer == old(buffer) || fresh(buffer)
        invariant bufferFp + bufferCnt == fp + bytesSent && bytesToSend == |data| - bytesSent
        decreases bytesToSend, bufferCnt
      {
        var sentNow := FlushNext(before, data, fp, bytesSent, bytesToSend);
        bytesSent := bytesSent + sentNow;
        bytesToSend := bytesToSend - sentNow;
      }
    }

    /** Buffer what is left of `data`, which fits. */
    method AppendRest(ghost before: Image, data: seq<Byte>, fp: nat, bytesSent: nat)
      requires Taken(before, data, fp, bytesSent) && bufferIndex + |data| - bytesSent <= bufferSize
      modifies this`bufferCnt, this`bufferIndex, buffer
      ensures Consistent() && bufferFp + bufferCnt == fp + |data|
      ensures Contents() == Put(before, fp, data)
    {
      hide Put, History, Contents, Numbered;
      NextPiece(before, fp, data, bytesSent, |data|);
      assert data[..|data|] == data;
      Append(data[bytesSent..|data|]);
      bufferIndex := bufferIndex + (|data| - bytesSent);
    }

    method WriteActive(data: seq<Byte>, poolTasks: nat)
      requires Consistent() && bufferFp + bufferCnt == filePos
      modifies this`filePos, this`bufferCnt, this`buffer, this`seqNum, this`sent, this`bufferIndex, this`bufferFp
      modifies buffer
      ensures Valid() && (buffer == old(buffer) || fresh(buffer)) && filePos == old(filePos) + |data|
      ensures Contents() == Put(old(Contents()), old(filePos), data)
    {
      ghost var before := Contents();
      hide Put, History, Contents, Numbered;
      var fp := filePos;
      filePos := filePos + |data|;
      var bytesSent := FlushFull(data, fp);
      AppendRest(before, data, fp, bytesSent);
      if poolTasks == 0 {
        Restart(fp + |data|);
      }
    }

    /** `poolTasks` is what the transfer pool reports to the early-flush test. */
    method Write(data: seq<Byte>, poolTasks: nat) returns (ret: nat)
      requires Valid()
      modifies this, buffer
      ensures Valid() && active == old(active) && (buffer == old(buffer) || fresh(buffer))
      ensures !active ==> ret == 0 && filePos == old(filePos) && Contents() == old(Contents()) && sent == old(sent)
      ensures active ==> ret == |data| && filePos == old(filePos) + |data|
      ensures active ==> Contents() == Put(old(Contents()), old(filePos), data)
    {
      hide Put, History, Contents, Numbered;
      if active {
        WriteActive(data, poolTasks);
        ret := |data|;
      } else {
        ret := 0;
      }
    }

    /** A seek first sends what is buffered, even when that is nothing. */
    method Seek(offset: int, whence: Whence) returns (pos: nat)
      requires Valid() && SeekTarget(filePos, offset, whence) >= 0
      modifies this
      ensures Valid() && active == old(active) && fresh(buffer)
      ensures pos == filePos == SeekTarget(old(filePos), offset, whence)
      ensures Contents() == old(Contents()) == History(sent) && |sent| == old(|sent|) + 1
    {
      match whence {
        case Set => Restart(offset); filePos := offset;
        case Current => Restart(filePos + offset); filePos := filePos + offset;
      }
      pos := filePos;
    }

    /** Send the last of the buffer. (Waiting for the pool is in DeliveryQueue.) */
    method Close()
      requires Valid() && active
      modifies this
      ensures !active && Numbered(sent) && History(sent) == old(Contents())
    {
      if bufferCnt > 0 {
        Send();
      }
      active := false;
    }
  }

  lemma ApplyNext(d: Direct, ops: seq<Op>, i: nat)
    requires i < |ops| && Allowed(ops[i..], d.pos)
    ensures ops[i].Seek? ==> SeekTarget(d.pos, ops[i].offset, ops[i].whence) >= 0
    ensures Allowed(ops[i + 1..], Apply(d, ops[i]).pos)
    ensures ApplyAll(d, ops[i..]) == ApplyAll(Apply(d, ops[i]), ops[i + 1..])
  {
    assert ops[i..][1..] == ops[i + 1..];
  }

  lemma WrittenNext(stream: seq<Byte>, ops: seq<Op>, i: nat)
    requires i < |ops|
    ensures stream + Written(ops[i..]) == (stream + DataOf(ops[i])) + Written(ops[i + 1..])
  {
    assert ops[i..][1..] == ops[i + 1..];
  }

  /** One call of the program. */
  method Perform(f: OutputFile, op: Op, poolTasks: nat)
    requires f.Valid() && f.active && (op.Seek? ==> SeekTarget(f.filePos, op.offset, op.whence) >= 0)
    modifies f, f.buffer
    ensures f.Valid() && f.active && (f.buffer == old(f.buffer) || fresh(f.buffer))
    ensures Direct(f.Contents().file, f.filePos) == Apply(Direct(old(f.Contents()).file, old(f.filePos)), op)
    ensures f.Contents().stream == old(f.Contents()).stream + DataOf(op)
  {
    hide WriteAt, History, OutputFile.Contents, Numbered;
    match op {
      case Write(data) => var n := f.Write(data, poolTasks);
      case Seek(offset, whence) => var n := f.Seek(offset, whence);
    }
  }

  /** Any run of writes and seeks, cut into messages in any way, ended by close. */
  method Session(ops: seq<Op>, bufferSize: nat, messageOffset: nat, poolTasks: seq<nat>)
    returns (messages: seq<Message>)
    requires messageOffset < bufferSize && Allowed(ops, 0) && |poolTasks| == |ops|
    ensures Numbered(messages)
    ensures Replay(messages) == ApplyAll(Direct([], 0), ops).file
    ensures Payload(messages) == Written(ops)
  {
    var f := new OutputFile(bufferSize, messageOffset);
    hide Put, History, OutputFile.Contents, Numbered, Apply, OutputFile.Consistent, Written;
    ghost var goal := ApplyAll(Direct([], 0), ops);
    assert ops[0..] == ops && [] + Written(ops) == Written(ops);
    for i := 0 to |ops|
      invariant f.Valid() && f.active && fresh(f) && fresh(f.buffer)
      invariant Allowed(ops[i..], f.filePos)
      invariant ApplyAll(Direct(f.Contents().file, f.filePos), ops[i..]) == goal
      invariant f.Contents().stream + Written(ops[i..]) == Written(ops)
    {
      ApplyNext(Direct(f.Contents().file, f.filePos), ops, i);
      WrittenNext(f.Contents().stream, ops, i);
      Perform(f, ops[i], poolTasks[i]);
    }
    WrittenNone(f.Contents().stream, ops[|ops|..]);
    f.Close();
    messages := f.sent;
    HistoryIs(messages);
  }

  lemma WrittenNone(stream: seq<Byte>, ops: seq<Op>)
    requires ops == []
    ensures stream + Written(ops) == stream
  {
  }
}
