/** A remote read from end to end: the request travels, the server compresses and sends the block, the
    client receives, checks and decompresses it, and the reader copies it to the caller. */
module RemoteRead {
  import opened Arith
  import opened Bytes
  import opened Message
  import opened Connection
  import opened Lz4Format
  import opened Lz4Reference
  import opened Lz4Parse
  import opened Lz4Periods
  import opened Lz4Compressor
  import opened Lz4Decoder
  import opened Client = InputFile
  import Lz4

  // ---------------------------------------------------------------- the block packet

  const COMP_LEVEL := 0

  /** The structure in front of a block: header, compression level, block number, data size. */
  function BlockHeader(nameSize: nat, blk: nat, dataSize: nat): (h: seq<Byte>)
    ensures |h| == SEND_BLK
  {
    Header(SEND_BLK_MSG, nameSize, dataSize + SEND_BLK + nameSize)
    + ToLe(COMP_LEVEL, 4) + ToLe(blk, 4) + ToLe(dataSize, 4)
  }

  lemma BlockHeaderFields(h: seq<Byte>, nameSize: nat, blk: nat, dataSize: nat)
    requires h == BlockHeader(nameSize, blk, dataSize) && nameSize < WORD && blk < WORD && dataSize < WORD
    ensures NameSize(h) == nameSize && Field(h, 24, 4) == blk && Field(h, 28, 4) == dataSize
  {
    var head := Header(SEND_BLK_MSG, nameSize, dataSize + SEND_BLK + nameSize);
    assert head[12..16] == ToLe(nameSize, 4) && h == h + [];
    FourParts(h, head, ToLe(COMP_LEVEL, 4), ToLe(blk, 4), ToLe(dataSize, 4), []);
    assert h[..HEADER][12..16] == h[12..16];
    hide BlockHeader, Header, ToLe, Field;
    Field4(h, 12, nameSize);
    Field4(h, 24, blk);
    Field4(h, 28, dataSize);
  }

  function BlockPacket(name: seq<Byte>, blk: nat, msg: seq<Byte>): seq<Byte>
  {
    BlockHeader(|name| + 1, blk, |msg|) + (name + [0]) + msg
  }

  // ---------------------------------------------------------------- the server's half

  /** The bytes of block `k`; the last block may be short. */
  function BlockOf(file: seq<Byte>, b: nat, k: nat): (block: seq<Byte>)
    ensures |block| <= b
  {
    file[Min(k * b, |file|)..Min(k * b + b, |file|)]
  }

  /** What the server sends for block `k`, its cache holding `held`: a function of the file, if compressed. */
  function SentFor(file: seq<Byte>, b: nat, k: nat, compress: bool, held: seq<Byte>): seq<Byte>
    requires b <= MAX_INPUT_SIZE
  {
    if compress then Compressed(BlockOf(file, b, k)) else held
  }

  lemma BoundGrows(n: nat, m: nat)
    requires n <= m <= MAX_INPUT_SIZE
    ensures CompressBound(n) <= CompressBound(m)
  {
  }

  /** ServeFile::compress: the whole block, or what there is of the last one. */
  method Compress(ghost file: seq<Byte>, blk: nat, blkData: seq<Byte>, blkSize: nat, fileSize: nat)
    returns (msgData: seq<Byte>)
    requires fileSize == |file| && blk * blkSize < fileSize && HoldsBlock(blkData, file, blkSize, blk)
    requires blkSize <= MAX_INPUT_SIZE
    ensures 0 < |msgData| <= CompressBound(|BlockOf(file, blkSize, blk)|)
    ensures msgData == Compressed(BlockOf(file, blkSize, blk)) && Encodes(msgData, BlockOf(file, blkSize, blk))
  {
    hide Encodes, CompressBound, Compressed;
    var size := blkSize;
    assert (blk + 1) * blkSize == blk * blkSize + blkSize;
    if (blk + 1) * blkSize > fileSize {
      size := fileSize - blk * blkSize;
    }
    assert blkData[..size] == BlockOf(file, blkSize, blk);
    BoundGrows(size, blkSize);
    var comp := new Byte[CompressBound(blkSize)](_ => 0);
    var r := CompressDefault(blkData[..size], comp);
    msgData := comp[..r];
  }

  /** ServeFile::sendData and serverSendCloseNew: structure, name and data, one after the other. */
  method SendData(ghost file: seq<Byte>, sender: Sender, name: seq<Byte>, blk: nat, blkData: seq<Byte>,
                  blkSize: nat, fileSize: nat, compress: bool) returns (msg: seq<Byte>)
    requires fileSize == |file| && blk * blkSize < fileSize && HoldsBlock(blkData, file, blkSize, blk)
    requires blkSize <= MAX_INPUT_SIZE && SteadyAccepts(sender.accepts, 0)
    modifies sender
    ensures sender.wire == old(sender.wire) + BlockPacket(name, blk, msg)
    ensures if compress then
              0 < |msg| <= CompressBound(|BlockOf(file, blkSize, blk)|) && Encodes(msg, BlockOf(file, blkSize, blk))
            else msg == blkData
    ensures msg == SentFor(file, blkSize, blk, compress, blkData)
  {
    hide Encodes, CompressBound, BlockOf, SteadyAccepts, BlockHeader, HoldsBlock, Compressed;
    if compress {
      msg := Compress(file, blk, blkData, blkSize, fileSize);
    } else {
      msg := blkData;
    }
    var header := BlockHeader(|name| + 1, blk, |msg|);
    var n := sender.SendMsg(header);
    assert header[..n] == header;
    n := sender.SendMsg(name + [0]);
    assert (name + [0])[..n] == name + [0];
    n := sender.SendMsg(msg);
    assert msg[..n] == msg;
    Regroup(old(sender.wire), header, name + [0]);
    Regroup(old(sender.wire), header + (name + [0]), msg);
  }

  // ---------------------------------------------------------------- the client's half

  datatype Reply = NoReply | Reply(fileName: seq<Byte>, blk: nat, dataSize: nat, data: seq<Byte>)

  /** clientRecRetryCount: all `size` bytes or nothing. */
  method RecCount(conn: Receiver, size: nat) returns (ok: bool, bytes: seq<Byte>)
    modifies conn`incoming
    ensures ok ==> |bytes| == size && Stream(old(conn.incoming)) == bytes + Stream(conn.incoming)
    ensures Steady(old(conn.incoming), 0) && |Stream(old(conn.incoming))| >= size ==> ok && Steady(conn.incoming, 0)
  {
    hide Stream, Steady;
    var buf := new Byte[size](_ => 0);
    var ret := conn.RecvMsg(buf, 0, size);
    ok := ret == size;
    bytes := buf[0..size];
  }

  lemma SplitFront(got: seq<Byte>, left: seq<Byte>, first: seq<Byte>, rest: seq<Byte>)
    requires got + left == first + rest && |got| == |first|
    ensures got == first && left == rest
  {
    assert (got + left)[..|got|] == got && (first + rest)[..|first|] == first;
    assert (got + left)[|got|..] == left && (first + rest)[|first|..] == rest;
  }

  /** recSendBlkMsg: the structure, then the name, then the data unless it is larger than the caller's
      limit; then the data stays unread in the stream. `name`, `blk`, `msg` and `rest` are what the server
      sent, if `expected`. */
  method RecSendBlkMsg(conn: Receiver, dataBufSize: nat, ghost expected: bool, ghost name: seq<Byte>, ghost blk: nat,
                       ghost msg: seq<Byte>, ghost rest: seq<Byte>) returns (reply: Reply)
    requires dataBufSize > 0
    requires expected ==> Steady(conn.incoming, 0) && Stream(conn.incoming) == BlockPacket(name, blk, msg) + rest
    requires expected ==> |name| + 1 < WORD && blk < WORD && |msg| < WORD
    modifies conn`incoming
    ensures reply.Reply? ==> reply.dataSize <= dataBufSize == |reply.data|
    ensures expected && |msg| > dataBufSize ==> reply.NoReply? && Stream(conn.incoming) == msg + rest
    ensures expected && |msg| <= dataBufSize ==>
              reply.Reply? && reply.fileName == name + [0] && reply.blk == blk && reply.dataSize == |msg|
              && reply.data[..|msg|] == msg && Stream(conn.incoming) == rest
  {
    hide Stream, Steady, BlockHeader, Field, NameSize;
    reply := NoReply;
    ghost var header, tail := BlockHeader(|name| + 1, blk, |msg|), (name + [0]) + (msg + rest);
    if expected { PacketParts(header, name + [0], msg, rest); }
    var ok, h := RecCount(conn, SEND_BLK);
    if !ok { return; }
    if expected {
      SplitFront(h, Stream(conn.incoming), header, tail);
      BlockHeaderFields(h, |name| + 1, blk, |msg|);
    }
    var fileName;
    ok, fileName := RecCount(conn, NameSize(h));
    if !ok { return; }
    if expected { SplitFront(fileName, Stream(conn.incoming), name + [0], msg + rest); }
    var dataSize := Field(h, 28, 4);
    if dataSize > dataBufSize { return; }
    var data;
    ok, data := RecCount(conn, dataSize);
    if !ok { return; }
    if expected { SplitFront(data, Stream(conn.incoming), msg, rest); }
    reply := Reply(fileName, Field(h, 24, 4), dataSize, data + seq(dataBufSize - dataSize, i => 0));
    assert reply.data[..dataSize] == data;
  }

  lemma PacketParts(h: seq<Byte>, n: seq<Byte>, msg: seq<Byte>, rest: seq<Byte>)
    ensures (h + n + msg) + rest == h + (n + (msg + rest))
  {
  }

  /** NetworkCache::decompress: into a buffer of the network block size. */
  method Decompress(compBuf: seq<Byte>, compBufSize: nat, blkBufSize: nat, ghost block: seq<Byte>)
    returns (data: seq<Byte>)
    requires compBufSize <= |compBuf| && Encodes(compBuf[..compBufSize], block) && |block| <= blkBufSize
    ensures |data| == blkBufSize && data[..|block|] == block
  {
    hide Encodes, Readable, Decode;
    DecodeEncoded(compBuf[..compBufSize], block, blkBufSize);
    var blkBuf := new Byte[blkBufSize](_ => 0);
    var ret := DecompressSafe(compBuf[..compBufSize], blkBuf, blkBufSize);
    data := blkBuf[..blkBufSize];
  }

  // ---------------------------------------------------------------- one block, there and back

  /** What the two sockets do, in both directions: how they take bytes and how they deliver them. */
  datatype Network = Network(upAccepts: seq<int>, upPlan: seq<int>, downAccepts: seq<int>, downPlan: seq<int>)

  predicate SteadyNetwork(net: Network)
  {
    SteadyAccepts(net.upAccepts, 0) && SteadyAccepts(net.upPlan, 0)
    && SteadyAccepts(net.downAccepts, 0) && SteadyAccepts(net.downPlan, 0)
  }

  /** Client and server cut the file into the same blocks: of the configured size, or one if it is smaller. */
  predicate Agreed(file: seq<Byte>, b: nat, networkBlockSize: nat)
  {
    0 < networkBlockSize <= MAX_INPUT_SIZE && b == Min(networkBlockSize, |file|)
  }

  /** A file name that fits the request's header, and a block the file has. */
  predicate Asked(name: seq<Byte>, file: seq<Byte>, b: nat, blk: nat)
  {
    0 !in name && |name| + 29 < WORD && blk < WORD && blk * b < |file|
  }

  lemma CapacityIsBlockSize(file: seq<Byte>, b: nat, networkBlockSize: nat, blk: nat)
    requires Agreed(file, b, networkBlockSize) && blk * b < |file|
    ensures blk * networkBlockSize <= |file| && |BlockOf(file, b, blk)| <= networkBlockSize < WORD
  {
    if b < networkBlockSize && blk > 0 {
      MulGrows(blk, b);
    }
  }

  lemma StillHolds(data: seq<Byte>, n: nat, blkData: seq<Byte>, file: seq<Byte>, b: nat, k: nat)
    requires n <= |data| && data[..n] == blkData && HoldsBlock(blkData, file, b, k)
    ensures HoldsBlock(data, file, b, k)
  {
    var m := Min(b, |file| - k * b);
    assert data[..m] == data[..n][..m];
  }

  lemma BlockHolds(data: seq<Byte>, file: seq<Byte>, b: nat, k: nat)
    requires var block := BlockOf(file, b, k); |block| <= |data| && data[..|block|] == block && k * b <= |file|
    ensures HoldsBlock(data, file, b, k)
  {
  }

  /** requestBlk's reading of the reply, the request and the server's answer to it having gone through. */
  method TakeReply(ghost file: seq<Byte>, b: nat, fileSize: nat, networkBlockSize: nat, blk: nat, compress: bool,
                   reply: Reply, ghost blkData: seq<Byte>, ghost msg: seq<Byte>)
    returns (success: bool, data: seq<Byte>)
    requires fileSize == |file| && Agreed(file, b, networkBlockSize) && blk * b < fileSize && blk < WORD
    requires HoldsBlock(blkData, file, b, blk)
    requires if compress then Encodes(msg, BlockOf(file, b, blk)) else msg == blkData
    requires |msg| > networkBlockSize ==> reply.NoReply?
    requires |msg| <= networkBlockSize ==>
               reply.Reply? && reply.fileName != [] && reply.blk == blk && reply.dataSize == |msg| <= |reply.data|
               && reply.data[..|msg|] == msg
    requires msg != []
    ensures success <==> |msg| <= networkBlockSize
    ensures success ==> HoldsBlock(data, file, b, blk)
  {
    hide Encodes, HoldsBlock, BlockOf, Agreed, Trunc32;
    CapacityIsBlockSize(file, b, networkBlockSize, blk);
    var start := blk * networkBlockSize;
    var end := if blk * networkBlockSize > fileSize then fileSize else start + networkBlockSize;
    var size := end - start;
    TruncBelow(networkBlockSize);
    success, data := false, [];
    if reply.NoReply? {
      return;
    }
    if reply.fileName != [] && reply.dataSize != 0 && reply.blk == blk {
      success := true;
      if compress {
        data := Decompress(reply.data, reply.dataSize, Trunc32(size), BlockOf(file, b, blk));
        BlockHolds(data, file, b, blk);
      } else {
        data := reply.data;
        StillHolds(data, |msg|, blkData, file, b, blk);
      }
    }
  }

  /** requestBlk: ask for one block and take the answer. `blkData` is what the server's cache holds for it,
      `msg` what the server sent, and `left` what is still unread on the connection afterwards. */
  method FetchBlock(ghost file: seq<Byte>, b: nat, fileSize: nat, networkBlockSize: nat, name: seq<Byte>, blk: nat,
                    compress: bool, blkData: seq<Byte>, net: Network)
    returns (success: bool, data: seq<Byte>, msg: seq<Byte>, ghost left: seq<Byte>)
    requires fileSize == |file| && Agreed(file, b, networkBlockSize) && Asked(name, file, b, blk)
    requires HoldsBlock(blkData, file, b, blk) && |blkData| < WORD && SteadyNetwork(net)
    ensures success <==> |msg| <= networkBlockSize
    ensures success ==> HoldsBlock(data, file, b, blk)
    ensures left == if success then [] else msg
    ensures if compress then 0 < |msg| <= CompressBound(|BlockOf(file, b, blk)|) && Encodes(msg, BlockOf(file, b, blk))
            else msg == blkData
    ensures msg == SentFor(file, b, blk, compress, blkData)
  {
    hide Encodes, HoldsBlock, SteadyAccepts, Stream, Steady, Agreed, BlockOf, SentFor;
    var request := RequestBlk(name, blk, blk);
    assert Sendable(request);
    var got := Exchange([request], net.upAccepts, net.upPlan, WRITE);
    var sender := new Sender(net.downAccepts);
    assert Agreed(file, b, networkBlockSize) && b <= MAX_INPUT_SIZE by { AgreedFits(file, b, networkBlockSize); }
    msg := SendData(file, sender, got[0].name, got[0].start, blkData, b, fileSize, compress);
    MessageFits(file, b, networkBlockSize, blk, msg, blkData, compress);
    CarryDelivers(sender.wire, net.downPlan, 0);
    var conn := new Receiver(Carry(sender.wire, net.downPlan), WRITE);
    assert [] + BlockPacket(name, blk, msg) == BlockPacket(name, blk, msg) == BlockPacket(name, blk, msg) + [];
    var reply := RecSendBlkMsg(conn, networkBlockSize, true, name, blk, msg, []);
    assert msg + [] == msg;
    left := Stream(conn.incoming);
    success, data := TakeReply(file, b, fileSize, networkBlockSize, blk, compress, reply, blkData, msg);
  }

  lemma AgreedFits(file: seq<Byte>, b: nat, networkBlockSize: nat)
    requires Agreed(file, b, networkBlockSize)
    ensures b <= MAX_INPUT_SIZE
  {
  }

  lemma MessageFits(file: seq<Byte>, b: nat, networkBlockSize: nat, blk: nat, msg: seq<Byte>,
                    blkData: seq<Byte>, compress: bool)
    requires Agreed(file, b, networkBlockSize) && blk * b < |file| && |blkData| < WORD
    requires if compress then |msg| <= CompressBound(|BlockOf(file, b, blk)|) else msg == blkData
    requires HoldsBlock(blkData, file, b, blk) && (compress ==> msg != [])
    ensures networkBlockSize > 0 && 0 < |msg| < WORD
  {
    CapacityIsBlockSize(file, b, networkBlockSize, blk);
  }

  // ---------------------------------------------------------------- what gets through

  /** A full block in which no four bytes occur twice is longer compressed than the client accepts. */
  lemma RepeatFreeBlockRefused(msg: seq<Byte>, block: seq<Byte>, networkBlockSize: nat)
    requires Encodes(msg, block) && |block| == networkBlockSize && !Lz4.Repeats(block)
    ensures |msg| > networkBlockSize
  {
    hide Encodes;
    Lz4.RepeatFreeGrows(msg, block);
  }

  /** For instance these four bytes, when the network block size is 4. */
  lemma FourBytesRefused(msg: seq<Byte>)
    requires Encodes(msg, [1, 2, 3, 4])
    ensures |msg| > 4
  {
    hide Encodes;
    RepeatFreeBlockRefused(msg, [1, 2, 3, 4], 4);
  }

  // ---------------------------------------------------------------- retries

  const RETRIES := 10

  /** The sizes of the messages of a block's attempts: one that is small enough is the only one, one that is
      too large is sent eleven times. */
  ghost predicate Tried(sizes: seq<nat>, size: nat, networkBlockSize: nat)
  {
    |sizes| == (if size <= networkBlockSize then 1 else 11) && forall n :: n in sizes ==> n == size
  }

  /** readBlock's task: after a refusal, up to ten more attempts over other connections. When all fail
      the future it hands on has nothing in it. */
  method FetchWithRetries(ghost file: seq<Byte>, b: nat, fileSize: nat, networkBlockSize: nat, name: seq<Byte>,
                          blk: nat, compress: bool, blkData: seq<Byte>, nets: seq<Network>)
    returns (fate: Fate, sizes: seq<nat>)
    requires fileSize == |file| && Agreed(file, b, networkBlockSize) && Asked(name, file, b, blk)
    requires HoldsBlock(blkData, file, b, blk) && |blkData| < WORD
    requires |nets| == RETRIES + 1 && forall net :: net in nets ==> SteadyNetwork(net)
    ensures var size := |SentFor(file, b, blk, compress, blkData)|;
            Tried(sizes, size, networkBlockSize)
            && if size <= networkBlockSize then fate.Ready? && HoldsBlock(fate.data, file, b, blk) else fate.Broken?
  {
    hide Encodes, HoldsBlock, SteadyNetwork, Agreed, BlockOf, CompressBound, Asked, SentFor;
    AgreedFits(file, b, networkBlockSize);
    ghost var left, size := [], |SentFor(file, b, blk, compress, blkData)|;
    var data, msg;
    var success := false;
    var retryCnt: nat := 0;
    success, data, msg, left := FetchBlock(file, b, fileSize, networkBlockSize, name, blk, compress, blkData, nets[0]);
    sizes := [|msg|];
    while !success && retryCnt < RETRIES
      invariant retryCnt <= RETRIES && |sizes| == retryCnt + 1
      invariant forall n :: n in sizes ==> n == size
      invariant success <==> size <= networkBlockSize
      invariant success ==> retryCnt == 0 && HoldsBlock(data, file, b, blk)
    {
      success, data, msg, left :=
        FetchBlock(file, b, fileSize, networkBlockSize, name, blk, compress, blkData, nets[retryCnt + 1]);
      sizes := sizes + [|msg|];
      retryCnt := retryCnt + 1;
    }
    fate := if success then Ready(data) else Fate.Broken;
  }

  // ---------------------------------------------------------------- the read

  lemma WantedIsAsked(r: Slice, name: seq<Byte>, k: nat)
    requires Legal(r) && Wanted(r, k) && Limit(r) < WORD && 0 !in name && |name| + 29 < WORD
    ensures Asked(name, r.file, r.b, k)
  {
    LowEdge(r, k);
    LimitEdge(r);
    hide First, Limit;
    MulStep(k, Limit(r), r.b);
  }

  /** What a client knows about a block: it is cached, or the server is asked, over these connections. */
  datatype Plan = Plan(cached: bool, held: seq<Byte>, nets: seq<Network>)

  /** `held` is what the cache that answers holds, the client's or the server's. */
  ghost predicate Sound(p: Plan, file: seq<Byte>, b: nat, k: nat)
  {
    HoldsBlock(p.held, file, b, k) && |p.held| < WORD
    && |p.nets| == RETRIES + 1 && forall net :: net in p.nets ==> SteadyNetwork(net)
  }

  /** What has become of the request for one block, given the sizes its attempts were sent in. */
  ghost predicate Answered(q: BlockRequest, p: Plan, sizes: seq<nat>, size: nat, networkBlockSize: nat)
  {
    if p.cached then q == AtOnce(p.held)
    else q.Later? && Tried(sizes, size, networkBlockSize)
         && if size <= networkBlockSize then q.fate.Ready? else q.fate.Broken?
  }

  /** The size of the message a plan calls for. */
  ghost function SizeFor(r: Slice, k: nat, compress: bool, p: Plan): nat
    requires r.b <= MAX_INPUT_SIZE
  {
    |SentFor(r.file, r.b, k, compress, p.held)|
  }

  method FetchWanted(ghost r: Slice, k: nat, b: nat, fileSize: nat, networkBlockSize: nat, name: seq<Byte>,
                     compress: bool, plan: Plan) returns (request: BlockRequest, sizes: seq<nat>)
    requires Legal(r) && Wanted(r, k) && Limit(r) < WORD && r.b == b && fileSize == |r.file|
    requires Agreed(r.file, b, networkBlockSize) && 0 !in name && |name| + 29 < WORD
    requires Sound(plan, r.file, b, k)
    ensures Answered(request, plan, sizes, SizeFor(r, k, compress, plan), networkBlockSize)
    ensures Accepted(request) ==> HoldsBlock(DataOf(request), r.file, b, k)
  {
    hide First, Limit, HoldsBlock, SteadyNetwork, Agreed, Asked, Wanted, Tried, SentFor;
    if plan.cached {
      return AtOnce(plan.held), [];
    }
    WantedIsAsked(r, name, k);
    var fate;
    fate, sizes := FetchWithRetries(r.file, b, fileSize, networkBlockSize, name, k, compress, plan.held, plan.nets);
    request := Later(true, fate);
  }

  /** The requests for the blocks of a slice. */
  method FetchAll(ghost r: Slice, startBlock: nat, endBlock: nat, b: nat, fileSize: nat, networkBlockSize: nat,
                  name: seq<Byte>, compress: bool, plans: seq<Plan>)
    returns (requests: seq<BlockRequest>, sizes: seq<seq<nat>>)
    requires Legal(r) && startBlock == First(r) && endBlock == Limit(r) <= |plans| < WORD
    requires r.b == b && fileSize == |r.file| && Agreed(r.file, b, networkBlockSize)
    requires 0 !in name && |name| + 29 < WORD
    requires forall k: nat :: Wanted(r, k) ==> Sound(plans[k], r.file, b, k)
    ensures |requests| == |sizes| == |plans| && Served(requests, r)
    ensures forall k: nat :: Wanted(r, k) ==>
              Answered(requests[k], plans[k], sizes[k], SizeFor(r, k, compress, plans[k]), networkBlockSize)
  {
    FirstInRange(r);
    AgreedFits(r.file, b, networkBlockSize);
    hide First, Limit, HoldsBlock, Sound, Agreed, Answered, Accepted, SizeFor;
    requests, sizes := seq(|plans|, i => Later(true, Unready)), seq(|plans|, i => []);
    for k: nat := startBlock to endBlock
      invariant |requests| == |sizes| == |plans|
      invariant forall i: nat :: startBlock <= i < k ==>
                  Answered(requests[i], plans[i], sizes[i], SizeFor(r, i, compress, plans[i]), networkBlockSize)
      invariant forall i: nat :: startBlock <= i < k && Accepted(requests[i]) ==>
                  HoldsBlock(DataOf(requests[i]), r.file, b, i)
    {
      var request, attempts := FetchWanted(r, k, b, fileSize, networkBlockSize, name, compress, plans[k]);
      requests, sizes := requests[k := request], sizes[k := attempts];
    }
  }

  /** Some wanted block is not cached, and what the server sends for it is more than the client takes. */
  ghost predicate Refused(plans: seq<Plan>, r: Slice, compress: bool, networkBlockSize: nat)
    requires Legal(r) && Limit(r) <= |plans| && r.b <= MAX_INPUT_SIZE
  {
    exists k: nat :: Wanted(r, k) && !plans[k].cached && SizeFor(r, k, compress, plans[k]) > networkBlockSize
  }

  lemma RefusedThrows(requests: seq<BlockRequest>, plans: seq<Plan>, sizes: seq<seq<nat>>, r: Slice, compress: bool,
                      networkBlockSize: nat)
    requires Legal(r) && Limit(r) <= |plans| == |sizes| == |requests| && r.b <= MAX_INPUT_SIZE
    requires forall k: nat :: Wanted(r, k) ==>
               Answered(requests[k], plans[k], sizes[k], SizeFor(r, k, compress, plans[k]), networkBlockSize)
    ensures Refused(plans, r, compress, networkBlockSize) <==> AnyThrows(requests, r)
    ensures Refused(plans, r, compress, networkBlockSize) <==> !Client.AllAccepted(requests, r)
    ensures forall k: nat :: Wanted(r, k) && plans[k].cached ==> requests[k].AtOnce?
  {
    hide First, Limit, Tried, SizeFor;
    forall k: nat | Wanted(r, k)
      ensures !plans[k].cached && SizeFor(r, k, compress, plans[k]) > networkBlockSize <==> Throws(requests[k])
      ensures Throws(requests[k]) <==> !Accepted(requests[k])
    {
      assert Answered(requests[k], plans[k], sizes[k], SizeFor(r, k, compress, plans[k]), networkBlockSize);
    }
  }

  // ---------------------------------------------------------------- which reads are refused

  /** A block whose worst case is small enough gets through: a short last block, for one. */
  lemma SmallBlockPasses(r: Slice, k: nat, p: Plan, networkBlockSize: nat)
    requires r.b <= MAX_INPUT_SIZE && CompressBound(|BlockOf(r.file, r.b, k)|) <= networkBlockSize
    ensures SizeFor(r, k, true, p) <= networkBlockSize
  {
    hide Compressed, CompressBound;
    CompressedEncodes(BlockOf(r.file, r.b, k));
  }

  /** Uncompressed, what counts is what the server's cache holds. */
  lemma RefusedUncompressed(plans: seq<Plan>, r: Slice, networkBlockSize: nat)
    requires Legal(r) && Limit(r) <= |plans| && r.b <= MAX_INPUT_SIZE
    ensures Refused(plans, r, false, networkBlockSize) <==>
            exists k: nat :: Wanted(r, k) && !plans[k].cached && |plans[k].held| > networkBlockSize
  {
    forall k: nat | Wanted(r, k) ensures SizeFor(r, k, false, plans[k]) == |plans[k].held| {
    }
  }

  /** A full block in which no four bytes occur twice makes every compressed read of it throw. */
  lemma RepeatFreeThrows(plans: seq<Plan>, r: Slice, networkBlockSize: nat, k: nat)
    requires Legal(r) && Limit(r) <= |plans| && r.b <= MAX_INPUT_SIZE && Wanted(r, k) && !plans[k].cached
    requires |BlockOf(r.file, r.b, k)| == networkBlockSize && !Lz4.Repeats(BlockOf(r.file, r.b, k))
    ensures Refused(plans, r, true, networkBlockSize)
  {
    hide Encodes, Compressed, Lz4.Repeats;
    var block := BlockOf(r.file, r.b, k);
    CompressedEncodes(block);
    RepeatFreeBlockRefused(Compressed(block), block, networkBlockSize);
  }

  /** A block that repeats with a short period gets through, full or not, unless its first words share buckets. */
  lemma PeriodicPasses(r: Slice, k: nat, p: Plan, networkBlockSize: nat, q: nat)
    requires r.b <= MAX_INPUT_SIZE && 0 < q <= 64
    requires var block := BlockOf(r.file, r.b, k);
             q + MIN_LENGTH <= |block| <= networkBlockSize
             && Periodic(block, q) && Apart(block, q, |block| < LIMIT_64K)
    ensures SizeFor(r, k, true, p) <= networkBlockSize
  {
    hide Compressed, Periodic, Apart;
    PeriodicIsShort(BlockOf(r.file, r.b, k), q);
  }

  /** So does one that counts to eight over and over. */
  lemma RampPasses(r: Slice, k: nat, p: Plan, networkBlockSize: nat)
    requires r.b <= MAX_INPUT_SIZE && 21 <= |BlockOf(r.file, r.b, k)| <= networkBlockSize
    requires IsRamp(BlockOf(r.file, r.b, k))
    ensures SizeFor(r, k, true, p) <= networkBlockSize
  {
    hide Compressed;
    RampIsShort(BlockOf(r.file, r.b, k));
  }

  /** Reading 64 bytes of that, a full block, does not throw. */
  lemma RampReads(file: seq<Byte>, plans: seq<Plan>)
    requires |file| == 64 && IsRamp(file) && |plans| == 1
    ensures var r := Slice(file, 64, 0, 64); Legal(r) && Limit(r) == 1 && !Refused(plans, r, true, 64)
  {
    var r := Slice(file, 64, 0, 64);
    assert First(r) == 0 && Limit(r) == 1;
    assert BlockOf(r.file, r.b, 0) == file;
    hide SizeFor, IsRamp;
    RampPasses(r, 0, plans[0], 64);
  }

  /** A block of one byte over and over gets through, full or not. */
  lemma RunPasses(r: Slice, k: nat, p: Plan, networkBlockSize: nat)
    requires r.b <= MAX_INPUT_SIZE && MIN_LENGTH < |BlockOf(r.file, r.b, k)| <= networkBlockSize
    requires IsRun(BlockOf(r.file, r.b, k))
    ensures SizeFor(r, k, true, p) <= networkBlockSize
  {
    hide Compressed;
    RunIsShort(BlockOf(r.file, r.b, k));
  }

  /** A compressed read whose uncached blocks are all small enough does not throw. */
  lemma SmallBlocksRead(plans: seq<Plan>, r: Slice, networkBlockSize: nat)
    requires Legal(r) && Limit(r) <= |plans| && r.b <= MAX_INPUT_SIZE
    requires forall k: nat :: Wanted(r, k) && !plans[k].cached ==>
               CompressBound(|BlockOf(r.file, r.b, k)|) <= networkBlockSize
    ensures !Refused(plans, r, true, networkBlockSize)
  {
    hide First, Limit, CompressBound, BlockOf, SizeFor;
    forall k: nat | Wanted(r, k) && !plans[k].cached ensures SizeFor(r, k, true, plans[k]) <= networkBlockSize {
      SmallBlockPasses(r, k, plans[k], networkBlockSize);
    }
  }

  lemma SmallBlockSizeReads(plans: seq<Plan>, r: Slice, networkBlockSize: nat)
    requires Legal(r) && Limit(r) <= |plans| && r.b <= MAX_INPUT_SIZE && CompressBound(r.b) <= networkBlockSize
    ensures !Refused(plans, r, true, networkBlockSize)
  {
    hide First, Limit, Compressed, Refused;
    forall k: nat | Wanted(r, k) && !plans[k].cached
      ensures CompressBound(|BlockOf(r.file, r.b, k)|) <= networkBlockSize
    {
      BoundGrows(|BlockOf(r.file, r.b, k)|, r.b);
    }
    SmallBlocksRead(plans, r, networkBlockSize);
  }

  /** For instance the last byte of any file of 21 bytes in blocks of 20, the network block size. */
  lemma ShortLastBlockReads(file: seq<Byte>, plans: seq<Plan>)
    requires |file| == 21 && |plans| == 2
    ensures var r := Slice(file, 20, 20, 1); Legal(r) && Limit(r) == 2 && !Refused(plans, r, true, 20)
  {
    var r := Slice(file, 20, 20, 1);
    assert First(r) == 1 && Limit(r) == 2;
    SmallBlocksRead(plans, r, 20);
  }

  /** Two full blocks of four different bytes each: the read succeeds if they are sent as they are, and
      throws if they are compressed. */
  lemma CompressedThrowsPlainDoesNot(plans: seq<Plan>)
    requires |plans| == 2 && !plans[0].cached && !plans[1].cached
    requires plans[0].held == [1, 2, 3, 4] && plans[1].held == [5, 6, 7, 8]
    ensures var r := Slice([1, 2, 3, 4, 5, 6, 7, 8], 4, 0, 8);
            Legal(r) && Limit(r) == 2 && Refused(plans, r, true, 4) && !Refused(plans, r, false, 4)
  {
    var r := Slice([1, 2, 3, 4, 5, 6, 7, 8], 4, 0, 8);
    assert First(r) == 0 && Limit(r) == 2;
    assert BlockOf(r.file, r.b, 0) == [1, 2, 3, 4];
    RepeatFreeThrows(plans, r, 4, 0);
    RefusedUncompressed(plans, r, 4);
  }

  /** The bytes of the buffer are the file's or untouched, and those of cached blocks are the file's. */
  ghost predicate OnlyTheFile(r: Slice, plans: seq<Plan>, before: seq<Byte>, after: seq<Byte>)
    requires Legal(r) && Limit(r) <= |plans|
  {
    |before| == |after|
    && (forall j: nat :: j < |after| ==> after[j] == before[j] || (j < r.count && after[j] == r.file[r.pos + j]))
    && (forall j: nat, k: nat :: j < |after| && Wanted(r, k) && plans[k].cached && Lo(r, k) <= j < Hi(r, k) ==>
          after[j] == r.file[r.pos + j])
  }

  lemma CopiedIsTheFile(requests: seq<BlockRequest>, plans: seq<Plan>, r: Slice, arrived: seq<nat>, before: seq<Byte>)
    requires Legal(r) && Limit(r) <= |plans| == |requests| && Copied(requests, r, arrived)
    requires |before| >= r.count && OffsetsFit(r)
    requires forall k: nat :: Wanted(r, k) && plans[k].cached ==> requests[k].AtOnce?
    ensures OnlyTheFile(r, plans, before, ArriveAll(before, r, arrived))
  {
    hide ArriveAll, OffsetsFit, First, Limit, Lo;
    var after := ArriveAll(before, r, arrived);
    forall j: nat | j < |after|
      ensures after[j] == before[j] || (j < r.count && after[j] == r.file[r.pos + j])
      ensures forall k: nat :: Wanted(r, k) && plans[k].cached && Lo(r, k) <= j < Hi(r, k) ==>
                after[j] == r.file[r.pos + j]
    {
      ArrivedByte(before, r, arrived, j);
    }
  }

  lemma WantedBelow(r: Slice)
    requires Legal(r)
    ensures forall k: nat :: Wanted(r, k) ==> k < Limit(r)
  {
  }

  /** What a remote read leaves in the caller's buffer: the slice, exactly when it did not throw and offsets
      fit (unless nothing was asked for); and never anything but the file's bytes in their places. */
  ghost predicate ReadInto(plans: seq<Plan>, r: Slice, arrived: seq<nat>, thrown: bool, before: seq<Byte>,
                           after: seq<Byte>)
    requires Legal(r) && Limit(r) <= |plans|
  {
    |before| >= r.count && AllWanted(r, arrived) && after == ArriveAll(before, r, arrived)
    && (r.count > 0 ==> (Delivered(r, arrived) <==> !thrown && OffsetsFit(r)))
    && (OffsetsFit(r) ==> OnlyTheFile(r, plans, before, after))
    && (!thrown && OffsetsFit(r) ==> after == r.file[r.pos..r.pos + r.count] + before[r.count..])
  }

  lemma LeftIsRead(requests: seq<BlockRequest>, plans: seq<Plan>, r: Slice, arrived: seq<nat>, thrown: bool,
                   before: seq<Byte>, after: seq<Byte>)
    requires Legal(r) && Limit(r) <= |plans| == |requests| && LeftInBuffer(requests, r, arrived, thrown, before, after)
    requires thrown <==> !Client.AllAccepted(requests, r)
    requires forall k: nat :: Wanted(r, k) && plans[k].cached ==> requests[k].AtOnce?
    ensures ReadInto(plans, r, arrived, thrown, before, after)
  {
    hide First, Limit, OffsetsFit, Delivered, OnlyTheFile, ByteAccepted, ArriveAll, Client.AllAccepted;
    if OffsetsFit(r) { CopiedIsTheFile(requests, plans, r, arrived, before); }
  }

  /** How often, and in what size, each block that had to be was sent. */
  ghost predicate AllTried(plans: seq<Plan>, sizes: seq<seq<nat>>, r: Slice, compress: bool, networkBlockSize: nat)
    requires Legal(r) && Limit(r) <= |plans| == |sizes| && r.b <= MAX_INPUT_SIZE
  {
    forall k: nat :: Wanted(r, k) && !plans[k].cached ==>
      Tried(sizes[k], SizeFor(r, k, compress, plans[k]), networkBlockSize)
  }

  lemma AnsweredTried(requests: seq<BlockRequest>, plans: seq<Plan>, sizes: seq<seq<nat>>, r: Slice, compress: bool,
                      networkBlockSize: nat)
    requires Legal(r) && Limit(r) <= |plans| == |sizes| == |requests| && r.b <= MAX_INPUT_SIZE
    requires forall k: nat :: Wanted(r, k) ==>
               Answered(requests[k], plans[k], sizes[k], SizeFor(r, k, compress, plans[k]), networkBlockSize)
    ensures AllTried(plans, sizes, r, compress, networkBlockSize)
  {
    hide First, Limit, Tried, SizeFor;
  }

  /** What becomes of the requests of a read. */
  method FetchFor(reader: Client.InputFile, wanted: nat, networkBlockSize: nat, name: seq<Byte>, compress: bool,
                  plans: seq<Plan>) returns (requests: seq<BlockRequest>, sizes: seq<seq<nat>>)
    requires reader.Valid() && reader.Opened() && reader.filePos < reader.fileSize
    requires Agreed(reader.file, reader.blkSize, networkBlockSize) && 0 !in name && |name| + 29 < WORD
    requires |plans| == reader.numBlks
    requires forall k: nat :: k < reader.numBlks ==> Sound(plans[k], reader.file, reader.blkSize, k)
    ensures var r := reader.Request(wanted);
            Served(requests, r) && Limit(r) <= |plans| == |sizes| == |requests|
            && (Refused(plans, r, compress, networkBlockSize) <==> AnyThrows(requests, r))
            && (Refused(plans, r, compress, networkBlockSize) <==> !Client.AllAccepted(requests, r))
            && AllTried(plans, sizes, r, compress, networkBlockSize)
            && forall k: nat :: Wanted(r, k) && plans[k].cached ==> requests[k].AtOnce?
  {
    ghost var r := reader.Request(wanted);
    assert Legal(r);
    AgreedFits(r.file, reader.blkSize, networkBlockSize);
    hide First, Limit, HoldsBlock, Sound, Agreed, Refused, Answered, AnyThrows, Client.AllAccepted, SizeFor;
    var count := Min(wanted, reader.fileSize - reader.filePos);
    var startBlock, endBlock := reader.BlockRange(r, count);
    WantedBelow(r);
    requests, sizes := FetchAll(r, startBlock, endBlock, reader.blkSize, reader.fileSize, networkBlockSize,
                                name, compress, plans);
    RefusedThrows(requests, plans, sizes, r, compress, networkBlockSize);
    AnsweredTried(requests, plans, sizes, r, compress, networkBlockSize);
  }

  /** The read of an opened file over the network. It throws exactly when some block it needs is in no
      client-side cache and what the server sends for it is larger than the network block size; the buffer
      then has what was copied before. Otherwise it returns the count and, offsets fitting, the slice. */
  method ReadRemote(reader: Client.InputFile, buf: array<Byte>, wanted: nat, networkBlockSize: nat, name: seq<Byte>,
                    compress: bool, plans: seq<Plan>)
    returns (thrown: bool, ret: nat, sizes: seq<seq<nat>>, ghost arrived: seq<nat>)
    requires reader.Valid() && reader.Opened() && reader.filePos < reader.fileSize && wanted <= buf.Length
    requires Agreed(reader.file, reader.blkSize, networkBlockSize) && 0 !in name && |name| + 29 < WORD
    requires |plans| == reader.numBlks
    requires forall k: nat :: k < reader.numBlks ==> Sound(plans[k], reader.file, reader.blkSize, k)
    modifies buf, reader`filePos, reader`eof
    ensures var r := old(reader.Request(wanted));
            Legal(r) && Limit(r) <= |plans| == |sizes| && r.b <= MAX_INPUT_SIZE
            && (thrown <==> Refused(plans, r, compress, networkBlockSize))
            && (compress && CompressBound(r.b) <= networkBlockSize ==> !thrown)
            && AllTried(plans, sizes, r, compress, networkBlockSize)
            && reader.filePos == old(reader.filePos) + (if thrown then 0 else r.count) && (!thrown ==> ret == r.count)
            && ReadInto(plans, r, arrived, thrown, old(buf[..]), buf[..])
  {
    ghost var r, before := reader.Request(wanted), buf[..];
    AgreedFits(reader.file, reader.blkSize, networkBlockSize);
    hide First, Limit, Refused, Served, LeftInBuffer, ReadInto, Client.AllAccepted, AnyThrows, Sound, Agreed, AllTried;
    hide CompressBound;
    var requests;
    requests, sizes := FetchFor(reader, wanted, networkBlockSize, name, compress, plans);
    thrown, ret, arrived := reader.Read(buf, wanted, requests);
    LeftIsRead(requests, plans, r, arrived, thrown, before, buf[..]);
    if compress && CompressBound(r.b) <= networkBlockSize { SmallBlockSizeReads(plans, r, networkBlockSize); }
  }
}
