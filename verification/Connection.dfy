/** Framing on a stream: partial sends and receives, retries, and the packet loop. The socket is a
    script of what each call does; any way of cutting the stream is some script. */
module Connection {
  import opened Bytes
  import opened Message
  import opened MessageChecks

  /** How often in a row a call may do nothing before the loop gives up. */
  const MESSAGE_RETRY := 100

  // ---------------------------------------------------------------- sending

  /** What rsend does, call by call: an error, nothing, or at most so many bytes. After the script it takes all. */
  predicate SteadyAccepts(accepts: seq<int>, retries: nat)
    decreases |accepts|
  {
    retries <= MESSAGE_RETRY
    && (accepts == [] || if accepts[0] == 0 then SteadyAccepts(accepts[1..], retries + 1)
                         else accepts[0] > 0 && SteadyAccepts(accepts[1..], 0))
  }

  class Sender {
    var accepts: seq<int>
    var wire: seq<Byte>   // everything sent so far

    constructor (accepts: seq<int>)
      ensures this.accepts == accepts && wire == []
    {
      this.accepts, wire := accepts, [];
    }

    method Rsend(bytes: seq<Byte>) returns (ret: int)
      requires bytes != []
      modifies this
      ensures ret <= |bytes| && wire == old(wire) + bytes[..Max(ret, 0)]
      ensures forall n: nat :: SteadyAccepts(old(accepts), n) ==>
                if ret == 0 then SteadyAccepts(accepts, n + 1) else ret > 0 && SteadyAccepts(accepts, 0)
    {
      ret := |bytes|;
      if accepts != [] {
        ret := Min(accepts[0], |bytes|);
        accepts := accepts[1..];
      }
      wire := wire + bytes[..Max(ret, 0)];
    }

    method SendMsg(msg: seq<Byte>) returns (sentSize: int)
      modifies this
      ensures sentSize == -1 || 0 <= sentSize <= |msg|
      ensures sentSize >= 0 ==> wire == old(wire) + msg[..sentSize]
      ensures SteadyAccepts(old(accepts), 0) ==> sentSize == |msg| && SteadyAccepts(accepts, 0)
    {
      var retryCnt: nat := 0;
      sentSize := 0;
      while sentSize < |msg| && retryCnt <= MESSAGE_RETRY
        invariant 0 <= sentSize <= |msg| && wire == old(wire) + msg[..sentSize]
        invariant SteadyAccepts(old(accepts), 0) ==> SteadyAccepts(accepts, retryCnt)
        invariant retryCnt > 0 ==> sentSize < |msg|
        decreases |msg| - sentSize, MESSAGE_RETRY + 1 - retryCnt
      {
        var ret := Rsend(msg[sentSize..]);
        if ret < 0 {
          return -1;
        } else if ret == 0 {
          retryCnt := retryCnt + 1;
        } else {
          assert msg[..sentSize] + msg[sentSize..][..ret] == msg[..sentSize + ret];
          sentSize := sentSize + ret;
          retryCnt := 0;
        }
      }
    }
  }

  function EncodeAll(ms: seq<Message>): seq<Byte>
  {
    if ms == [] then [] else Encode(ms[0]) + EncodeAll(ms[1..])
  }

  lemma Regroup(a: seq<Byte>, b: seq<Byte>, c: seq<Byte>)
    ensures (a + b) + c == a + (b + c)
  {
  }

  lemma EncodeFirst(m: Message, ms: seq<Message>)
    ensures EncodeAll([m] + ms) == Encode(m) + EncodeAll(ms)
  {
    hide Encode;
    assert ([m] + ms)[1..] == ms;
  }

  lemma FirstOut(ms: seq<Message>, m: Message)
    requires ms != []
    ensures ms == [ms[0]] + ms[1..] && ms + [m] == [ms[0]] + (ms[1..] + [m])
  {
  }

  lemma EncodeOne(m: Message)
    ensures EncodeAll([]) == [] && EncodeAll([] + [m]) == [] + Encode(m)
  {
    hide Encode;
    assert [] + [m] == [m] + [];
    EncodeFirst(m, []);
  }

  lemma {:induction false} EncodeMore(ms: seq<Message>, m: Message)
    ensures EncodeAll(ms + [m]) == EncodeAll(ms) + Encode(m)
  {
    hide Encode, EncodeAll;
    if ms == [] {
      EncodeOne(m);
    } else {
      FirstOut(ms, m);
      EncodeFirst(ms[0], ms[1..] + [m]);
      EncodeFirst(ms[0], ms[1..]);
      EncodeMore(ms[1..], m);
      Regroup(Encode(ms[0]), EncodeAll(ms[1..]), Encode(m));
    }
  }

  lemma EncodeNext(ms: seq<Message>, i: nat)
    requires i < |ms|
    ensures EncodeAll(ms[..i + 1]) == EncodeAll(ms[..i]) + Encode(ms[i])
  {
    hide Encode, EncodeAll;
    assert ms[..i + 1] == ms[..i] + [ms[i]];
    EncodeMore(ms[..i], ms[i]);
  }

  /** Build the packet of a message in the form its sender uses. */
  method BuildAny(m: Message) returns (buff: array<Byte>)
    ensures fresh(buff) && buff[..] == Encode(m)
  {
    if m.Write? {
      buff := new Byte[SizeOf(m)];
      FixedWidth(m);
      hide Fixed, Encode;
      CopyInto(buff, WRITE + |m.name| + 1, m.data);
      BuildWrite(buff, m);
      assert buff[..SizeOf(m)] == buff[..];
    } else if Named(m) {
      buff := Build(m);
    } else {
      buff := BuildBare(m);
    }
  }

  method SendOne(sender: Sender, m: Message)
    requires SteadyAccepts(sender.accepts, 0)
    modifies sender
    ensures SteadyAccepts(sender.accepts, 0) && sender.wire == old(sender.wire) + Encode(m)
  {
    hide Encode, SteadyAccepts;
    var buff := BuildAny(m);
    var n := sender.SendMsg(buff[..]);
    assert buff[..][..n] == buff[..];
  }

  /** A steady socket carries the messages one behind the other. */
  method SendAll(ms: seq<Message>, accepts: seq<int>) returns (wire: seq<Byte>)
    requires SteadyAccepts(accepts, 0)
    ensures wire == EncodeAll(ms)
  {
    assert EncodeAll(ms[..0]) == [];
    hide Encode, EncodeAll, SteadyAccepts;
    var sender := new Sender(accepts);
    for i := 0 to |ms|
      invariant sender.wire == EncodeAll(ms[..i]) && SteadyAccepts(sender.accepts, 0) && fresh(sender)
    {
      SendOne(sender, ms[i]);
      EncodeNext(ms, i);
    }
    assert ms[..|ms|] == ms;
    wire := sender.wire;
  }

  // ---------------------------------------------------------------- receiving

  /** What rrecv does, call by call: bytes arrive, nothing or an interrupt does, or the socket fails. */
  datatype Event = Data(bytes: seq<Byte>) | Quiet | Broken

  function Stream(events: seq<Event>): seq<Byte>
  {
    if events == [] then [] else (if events[0].Data? then events[0].bytes else []) + Stream(events[1..])
  }

  /** No failure, and never more idle calls in a row than the loop puts up with. */
  predicate Steady(events: seq<Event>, retries: nat)
    decreases |events|
  {
    retries <= MESSAGE_RETRY
    && (events == [] ||
        match events[0]
        case Data(bytes) => bytes != [] && Steady(events[1..], 0)
        case Quiet => Steady(events[1..], retries + 1)
        case Broken => false)
  }

  class Receiver {
    var incoming: seq<Event>
    var buffer: array<Byte>

    constructor (incoming: seq<Event>, bufferSize: nat)
      ensures this.incoming == incoming && fresh(buffer) && buffer.Length == bufferSize
    {
      this.incoming := incoming;
      buffer := new Byte[bufferSize](_ => 0);
    }

    /** At most `max` bytes; what does not fit stays in the stream. */
    method Rrecv(max: nat) returns (ret: int, bytes: seq<Byte>)
      requires max > 0
      modifies this`incoming
      ensures -1 <= ret <= max && |bytes| == Max(ret, 0) && Stream(old(incoming)) == bytes + Stream(incoming)
      ensures old(incoming) != [] ==>
                forall n: nat :: Steady(old(incoming), n) ==>
                  if ret == 0 then Steady(incoming, n + 1) else ret > 0 && Steady(incoming, 0)
    {
      ret, bytes := 0, [];
      if incoming != [] {
        var first, rest := incoming[0], incoming[1..];
        match first
        case Data(some) =>
          bytes := some[..Min(|some|, max)];
          ret := |bytes|;
          if |some| > max {
            var left := [Data(some[max..])] + rest;
            assert left[1..] == rest && Stream(left) == some[max..] + Stream(rest);
            assert some == some[..max] + some[max..];
            assert some[..max] + (some[max..] + Stream(rest)) == some + Stream(rest);
            incoming := left;
          } else {
            assert bytes == some;
            incoming := rest;
          }
        case Quiet => incoming := rest;
        case Broken => ret := -1; incoming := rest;
      }
    }

    /** The call writes straight into the buffer. */
    method RrecvInto(buf: array<Byte>, at: nat, max: nat) returns (ret: int)
      requires max > 0 && at + max <= buf.Length
      modifies this`incoming, buf
      ensures -1 <= ret <= max && Stream(old(incoming)) == buf[at..at + Max(ret, 0)] + Stream(incoming)
      ensures buf[..at] == old(buf[..at])
      ensures old(incoming) != [] ==>
                forall n: nat :: Steady(old(incoming), n) ==>
                  if ret == 0 then Steady(incoming, n + 1) else ret > 0 && Steady(incoming, 0)
    {
      hide Stream, Steady;
      var bytes;
      ret, bytes := Rrecv(max);
      CopyInto(buf, at, bytes);
    }

    lemma SameStart(s: seq<Byte>, t: seq<Byte>, i: nat, j: nat)
      requires i <= j <= |s| && j <= |t| && s[..j] == t[..j]
      ensures s[i..j] == t[i..j] && s[..i] == t[..i]
    {
      assert s[..j][i..] == s[i..j] && t[..j][i..] == t[i..j];
      assert s[..j][..i] == s[..i] && t[..j][..i] == t[..i];
    }

    lemma JoinPieces(s: seq<Byte>, i: nat, j: nat, k: nat, rest: seq<Byte>)
      requires i <= j <= k <= |s|
      ensures s[i..j] + (s[j..k] + rest) == s[i..k] + rest
    {
    }

    /** The first `n` bytes of `whole` are in the buffer at `at`, the others in the stream. */
    ghost predicate Received(buf: array<Byte>, at: nat, n: nat, whole: seq<Byte>)
      reads this`incoming, buf
    {
      at + n <= buf.Length && whole == buf[at..at + n] + Stream(incoming)
    }

    /** One call of the loop. */
    method RecvMore(buf: array<Byte>, at: nat, recvSize: nat, max: nat, ghost whole: seq<Byte>,
                    ghost retries: nat) returns (ret: int)
      requires max > 0 && at + recvSize + max <= buf.Length
      requires Received(buf, at, recvSize, whole)
      modifies this`incoming, buf
      ensures -1 <= ret <= max && buf[..at] == old(buf[..at])
      ensures ret >= 0 ==> Received(buf, at, recvSize + ret, whole)
      ensures Steady(old(incoming), retries) && |whole| > recvSize ==>
                if ret == 0 then Steady(incoming, retries + 1) else ret > 0 && Steady(incoming, 0)
    {
      StreamOfNone();
      hide Stream, Steady;
      ghost var before := buf[..];
      ret := RrecvInto(buf, at + recvSize, max);
      SameStart(before, buf[..], at, at + recvSize);
      JoinPieces(buf[..], at, at + recvSize, at + recvSize + Max(ret, 0), Stream(incoming));
    }

    /** Receive `size` bytes into the buffer at `at`, over as many calls as it takes. */
    method RecvMsg(buf: array<Byte>, at: nat, size: int) returns (recvSize: int)
      requires at + Max(size, 0) <= buf.Length
      modifies this`incoming, buf
      ensures recvSize == -1 || 0 <= recvSize <= Max(size, 0)
      ensures recvSize >= 0 ==> Stream(old(incoming)) == buf[at..at + recvSize] + Stream(incoming)
      ensures buf[..at] == old(buf[..at])
      ensures Steady(old(incoming), 0) && |Stream(old(incoming))| >= size ==>
                recvSize == Max(size, 0) && Steady(incoming, 0)
    {
      hide Stream, Steady;
      if size <= 0 {
        return 0;
      }
      recvSize := Recv(buf, at, size);
    }

    method Recv(buf: array<Byte>, at: nat, size: nat) returns (recvSize: int)
      requires at + size <= buf.Length
      modifies this`incoming, buf
      ensures recvSize == -1 || 0 <= recvSize <= size
      ensures recvSize >= 0 ==> Stream(old(incoming)) == buf[at..at + recvSize] + Stream(incoming)
      ensures buf[..at] == old(buf[..at])
      ensures Steady(old(incoming), 0) && |Stream(old(incoming))| >= size ==> recvSize == size && Steady(incoming, 0)
    {
      hide Stream, Steady, Received;
      ghost var whole := Stream(incoming);
      ghost var steady := Steady(incoming, 0) && |whole| >= size;
      var retryCnt: nat := 0;
      recvSize := 0;
      NothingReceived(buf, at);
      while recvSize < size && retryCnt <= MESSAGE_RETRY
        invariant 0 <= recvSize <= size && buf[..at] == old(buf[..at])
        invariant Received(buf, at, recvSize, whole)
        invariant steady ==> Steady(incoming, retryCnt) && (retryCnt > 0 ==> recvSize < size)
        decreases size - recvSize, MESSAGE_RETRY + 1 - retryCnt
      {
        var ret := RecvMore(buf, at, recvSize, size - recvSize, whole, retryCnt);
        if ret < 0 {
          return -1;
        } else if ret == 0 {
          retryCnt := retryCnt + 1;
        } else {
          retryCnt := 0;
          recvSize := recvSize + ret;
        }
      }
      if steady { SteadyBound(incoming, retryCnt); }
      ReceivedMeans(buf, at, recvSize, whole);
    }

    lemma NothingReceived(buf: array<Byte>, at: nat)
      requires at <= buf.Length
      ensures Received(buf, at, 0, Stream(incoming))
    {
    }

    lemma ReceivedMeans(buf: array<Byte>, at: nat, n: nat, whole: seq<Byte>)
      requires Received(buf, at, n, whole)
      ensures at + n <= buf.Length && whole == buf[at..at + n] + Stream(incoming)
    {
    }

    /** The header has come (or the first `part` bytes of it); receive the rest of the packet and check it. */
    method ReceiveBody(part: nat, ghost whole: seq<Byte>, ghost m: Message, ghost expected: bool)
      returns (ret: int, pkt: seq<Byte>)
      requires buffer.Length >= WRITE && part <= HEADER && whole == buffer[0..part] + Stream(incoming)
      requires expected ==> part == HEADER && PacketSize(buffer[..]) == SizeOf(m) && Steady(incoming, 0)
      requires expected ==> Sendable(m) && Encode(m) <= whole && |Stream(incoming)| >= SizeOf(m) - HEADER
      modifies this`incoming, buffer
      requires buffer.Length >= PacketSize(buffer[..])
      ensures ret >= HEADER ==> |pkt| == ret && whole == pkt + Stream(incoming) && WellFormed(pkt)
      ensures expected ==> ret == SizeOf(m) && pkt == Encode(m) && Steady(incoming, 0)
    {
      hide Stream, Steady, Encode, Sendable, SizeOf, Header, CheckMsg, PacketSize, WellFormed;
      var size := PacketSize(buffer[..]);
      ghost var before, first := buffer[..], Stream(incoming);
      if expected { HeaderFirst(whole, m); }
      pkt := [];
      var temp := RecvMsg(buffer, HEADER, size - HEADER);
      if temp == -1 {
        return -1, [];
      }
      SameHeader(before, buffer[..]);
      ret := part + temp;
      if part == HEADER { BothParts(whole, before, first, buffer[..], temp, Stream(incoming)); }
      if expected { ArrivedWhole(whole, buffer[..], m, Stream(incoming)); }
      CheckedSize(buffer[..], ret);
      if CheckMsg(buffer[..], ret) {
        pkt := buffer[..size];
        if ret >= HEADER { CheckedIsWellFormed(buffer[..], ret); }
      } else {
        ret := -1;
      }
    }

    /** Receive one packet: the header, then as many bytes as it says, in a buffer that grows to hold
        them. `m` is the message that comes next, if one does. What is handed on is headed as a message is;
        what does not begin with the magic number is not handed on. */
    method ReceivePacket(ghost m: Message) returns (ret: int, pkt: seq<Byte>)
      requires buffer.Length >= WRITE
      modifies this, buffer
      ensures buffer.Length >= WRITE && (buffer == old(buffer) || fresh(buffer))
      ensures ret >= HEADER ==> |pkt| == ret && Stream(old(incoming)) == pkt + Stream(incoming) && WellFormed(pkt)
      ensures |Stream(old(incoming))| >= 8 && Stream(old(incoming))[..8] != ToLe(MAGIC, 8) ==> ret < HEADER
      ensures Sendable(m) && Steady(old(incoming), 0) && Encode(m) <= Stream(old(incoming)) ==>
                ret == SizeOf(m) && pkt == Encode(m) && Steady(incoming, 0)
    {
      hide Stream, Steady, Encode, Sendable, SizeOf, PacketSize, WellFormed, ToLe;
      ghost var whole := Stream(incoming);
      ghost var expected := Sendable(m) && Steady(incoming, 0) && Encode(m) <= whole;
      if expected { HeaderFirst(whole, m); }
      ret := RecvMsg(buffer, 0, HEADER);
      if ret <= 0 {
        return ret, [];
      }
      ghost var before := buffer[..];
      if expected { ArrivedHeader(whole, before, m, Stream(incoming)); }
      if PacketSize(buffer[..]) > buffer.Length {
        Grow(PacketSize(buffer[..]));
        SameHeader(before, buffer[..]);
        SamePart(before, buffer[..], ret);
      }
      ret, pkt := ReceiveBody(ret, whole, m, expected);
      if ret >= HEADER { MagicOfStream(whole, pkt, Stream(incoming)); }
    }

    /** A larger buffer with the header copied over. */
    method Grow(size: nat)
      requires HEADER <= buffer.Length < size
      modifies this`buffer
      ensures fresh(buffer) && buffer.Length == size && buffer[..HEADER] == old(buffer[..HEADER])
    {
      var header := buffer[..HEADER];
      buffer := new Byte[size](_ => 0);
      CopyInto(buffer, 0, header);
    }
  }

  lemma MagicOfStream(whole: seq<Byte>, pkt: seq<Byte>, rest: seq<Byte>)
    requires WellFormed(pkt) && whole == pkt + rest
    ensures |whole| >= 8 && whole[..8] == ToLe(MAGIC, 8)
  {
    hide WellFormed, ToLe;
    MagicFirst(pkt);
    assert whole[..8] == pkt[..8];
  }

  lemma SameHeader(s: seq<Byte>, t: seq<Byte>)
    requires |s| >= HEADER && |t| >= HEADER && s[..HEADER] == t[..HEADER]
    ensures MagicOf(s) == MagicOf(t) && GetMsgType(s) == GetMsgType(t)
            && NameSize(s) == NameSize(t) && PacketSize(s) == PacketSize(t)
  {
    assert s[..HEADER][0..8] == s[0..8] && s[..HEADER][8..12] == s[8..12];
    assert s[..HEADER][12..16] == s[12..16] && s[..HEADER][16..20] == s[16..20];
    assert t[..HEADER][0..8] == t[0..8] && t[..HEADER][8..12] == t[8..12];
    assert t[..HEADER][12..16] == t[12..16] && t[..HEADER][16..20] == t[16..20];
  }

  lemma SamePart(s: seq<Byte>, t: seq<Byte>, part: nat)
    requires |s| >= HEADER >= part && |t| >= HEADER && s[..HEADER] == t[..HEADER]
    ensures s[0..part] == t[0..part]
  {
    assert s[..HEADER][..part] == s[..part] && t[..HEADER][..part] == t[..part];
  }

  lemma HeaderFirst(whole: seq<Byte>, m: Message)
    requires Encode(m) <= whole
    ensures |whole| >= SizeOf(m) >= HEADER
  {
  }

  lemma ArrivedHeader(whole: seq<Byte>, before: seq<Byte>, m: Message, first: seq<Byte>)
    requires Sendable(m) && Encode(m) <= whole && |before| >= HEADER && whole == before[0..HEADER] + first
    ensures PacketSize(before) == SizeOf(m) && |first| >= SizeOf(m) - HEADER
  {
    EncodedHeader(whole, m);
    HeaderFirst(whole, m);
    assert whole[..HEADER] == before[..HEADER];
    SameHeader(whole, before);
  }

  lemma BothParts(whole: seq<Byte>, before: seq<Byte>, first: seq<Byte>, got: seq<Byte>, temp: nat, rest: seq<Byte>)
    requires |before| >= HEADER && HEADER + temp <= |got| && before[..HEADER] == got[..HEADER]
    requires whole == before[0..HEADER] + first && first == got[HEADER..HEADER + temp] + rest
    ensures whole == got[..HEADER + temp] + rest
  {
    assert got[..HEADER + temp] == got[..HEADER] + got[HEADER..HEADER + temp];
  }

  lemma ArrivedWhole(whole: seq<Byte>, got: seq<Byte>, m: Message, rest: seq<Byte>)
    requires Sendable(m) && Encode(m) <= whole && SizeOf(m) <= |got| && |got| >= WRITE
    requires whole == got[..SizeOf(m)] + rest
    ensures got[..SizeOf(m)] == Encode(m) && CheckMsg(got, SizeOf(m))
  {
    assert got[..SizeOf(m)] == Encode(m) by {
      hide Encode, SizeOf;
      assert whole[..SizeOf(m)] == Encode(m);
    }
    EncodedChecks(got, m);
  }

  lemma CheckedSize(pkt: seq<Byte>, size: nat)
    requires |pkt| >= WRITE
    ensures CheckMsg(pkt, size) ==> size == PacketSize(pkt)
  {
  }

  lemma StreamOfNone()
    ensures Stream([]) == []
  {
  }

  lemma SteadyBound(events: seq<Event>, n: nat)
    requires Steady(events, n)
    ensures n <= MESSAGE_RETRY
  {
  }

  lemma EncodeFront(ms: seq<Message>)
    requires ms != []
    ensures EncodeAll(ms) == Encode(ms[0]) + EncodeAll(ms[1..])
  {
  }

  lemma Cancel(a: seq<Byte>, b: seq<Byte>, c: seq<Byte>)
    requires a + b == a + c
    ensures b == c
  {
    assert (a + b)[|a|..] == b && (a + c)[|a|..] == c;
  }

  /** However the stream is cut, the packets received and parsed are the messages that were sent. */
  method ReceiveAll(ghost ms: seq<Message>, count: nat, incoming: seq<Event>, bufferSize: nat)
    returns (got: seq<Message>)
    requires |ms| == count && bufferSize >= WRITE && Stream(incoming) == EncodeAll(ms) && Steady(incoming, 0)
    requires forall m :: m in ms ==> Sendable(m)
    ensures got == ms
  {
    hide Stream, Steady, Encode, Sendable, SizeOf, Parse, Parsable, EncodeAll;
    var receiver := new Receiver(incoming, bufferSize);
    got := [];
    assert ms[0..] == ms;
    for i := 0 to count
      invariant fresh(receiver) && fresh(receiver.buffer) && receiver.buffer.Length >= WRITE
      invariant got == ms[..i] && Stream(receiver.incoming) == EncodeAll(ms[i..]) && Steady(receiver.incoming, 0)
    {
      EncodeFront(ms[i..]);
      assert ms[i..][0] == ms[i] && ms[i..][1..] == ms[i + 1..];
      assert ms[i] in ms;
      var ret, pkt := receiver.ReceivePacket(ms[i]);
      ParseEncoded(ms[i]);
      HeaderFirst(Encode(ms[i]), ms[i]);
      Cancel(pkt, Stream(receiver.incoming), EncodeAll(ms[i + 1..]));
      got := got + [Parse(pkt)];
    }
  }

  // ---------------------------------------------------------------- from end to end

  /** The network: pieces of the sizes in `plan`, with an idle call for each 0, then the rest at once. */
  function Carry(bytes: seq<Byte>, plan: seq<int>): seq<Event>
    decreases |plan|
  {
    if bytes == [] then []
    else if plan == [] then [Data(bytes)]
    else if plan[0] <= 0 then [Quiet] + Carry(bytes, plan[1..])
    else var n := Min(plan[0], |bytes|); [Data(bytes[..n])] + Carry(bytes[n..], plan[1..])
  }

  lemma {:induction false} CarryDelivers(bytes: seq<Byte>, plan: seq<int>, retries: nat)
    requires SteadyAccepts(plan, retries)
    ensures Stream(Carry(bytes, plan)) == bytes && Steady(Carry(bytes, plan), retries)
    decreases |plan|
  {
    if bytes != [] && plan != [] {
      if plan[0] == 0 {
        CarryDelivers(bytes, plan[1..], retries + 1);
        assert Carry(bytes, plan)[1..] == Carry(bytes, plan[1..]);
      } else {
        var n := Min(plan[0], |bytes|);
        CarryDelivers(bytes[n..], plan[1..], 0);
        assert Carry(bytes, plan)[1..] == Carry(bytes[n..], plan[1..]);
        assert bytes[..n] + bytes[n..] == bytes;
      }
    } else if bytes != [] {
      assert Carry(bytes, plan)[1..] == [];
    }
  }

  /** Messages sent over a steady socket in any pieces, and received in any other pieces, come out the same. */
  method Exchange(ms: seq<Message>, accepts: seq<int>, plan: seq<int>, bufferSize: nat) returns (got: seq<Message>)
    requires SteadyAccepts(accepts, 0) && SteadyAccepts(plan, 0) && bufferSize >= WRITE
    requires forall m :: m in ms ==> Sendable(m)
    ensures got == ms
  {
    var wire := SendAll(ms, accepts);
    CarryDelivers(wire, plan, 0);
    got := ReceiveAll(ms, |ms|, Carry(wire, plan), bufferSize);
  }
}
