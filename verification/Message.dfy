/** The packets client and server exchange: packed little-endian headers, names and data. */
module Message {
  import opened Arith
  import opened Bytes

  const MAGIC := 0x32ab4fd
  const DWORD := 0x1_0000_0000_0000_0000

  const OPEN_FILE_MSG := 0
  const REQ_FILE_SIZE_MSG := 1
  const FILE_SIZE_MSG := 2
  const REQ_BLK_MSG := 3
  const SEND_BLK_MSG := 4
  const CLOSE_FILE_MSG := 5
  const CLOSE_CON_MSG := 6
  const CLOSE_SERVER_MSG := 7
  const PING_MSG := 8
  const WRITE_MSG := 9
  const ACK_MSG := 10

  // sizeof of the packed structures
  const HEADER := 20
  const SEND_BLK := 32
  const WRITE := 40

  datatype Message =
    | OpenFile(name: seq<Byte>, blkSize: nat, compress: bool, output: bool)
    | RequestSize(name: seq<Byte>)
    | FileSize(name: seq<Byte>, fileSize: nat, open: Byte)
    | RequestBlk(name: seq<Byte>, start: nat, end: nat)
    | CloseFile(name: seq<Byte>)
    | CloseCon
    | CloseServer
    | Ping
    | Write(name: seq<Byte>, data: seq<Byte>, compSize: nat, fp: nat, sn: nat)
    | Ack(ackType: nat)

  function TypeOf(m: Message): (t: nat)
    ensures t <= ACK_MSG && t != SEND_BLK_MSG
  {
    match m
    case OpenFile(_, _, _, _) => OPEN_FILE_MSG
    case RequestSize(_) => REQ_FILE_SIZE_MSG
    case FileSize(_, _, _) => FILE_SIZE_MSG
    case RequestBlk(_, _, _) => REQ_BLK_MSG
    case CloseFile(_) => CLOSE_FILE_MSG
    case CloseCon => CLOSE_CON_MSG
    case CloseServer => CLOSE_SERVER_MSG
    case Ping => PING_MSG
    case Write(_, _, _, _, _) => WRITE_MSG
    case Ack(_) => ACK_MSG
  }

  predicate Named(m: Message) { !(m.CloseCon? || m.CloseServer? || m.Ping? || m.Ack?) }

  /** The fields between the header and the name. */
  function Fixed(m: Message): seq<Byte>
  {
    match m
    case OpenFile(_, blkSize, compress, output) =>
      ToLe(blkSize, 4) + [if compress then 1 else 0] + [if output then 1 else 0]
    case FileSize(_, fileSize, open) => ToLe(fileSize, 8) + [open]
    case RequestBlk(_, start, end) => ToLe(start, 4) + ToLe(end, 4)
    case Write(_, data, compSize, fp, sn) => ToLe(|data|, 4) + ToLe(compSize, 4) + ToLe(fp, 8) + ToLe(sn, 4)
    case Ack(ackType) => ToLe(ackType, 4)
    case _ => []
  }

  function NameField(m: Message): seq<Byte> { if Named(m) then m.name + [0] else [] }

  function DataField(m: Message): seq<Byte> { if m.Write? then m.data else [] }

  function SizeOf(m: Message): nat { HEADER + |Fixed(m)| + |NameField(m)| + |DataField(m)| }

  function Header(kind: nat, fileNameSize: nat, size: nat): (h: seq<Byte>)
    ensures |h| == HEADER
  {
    ToLe(MAGIC, 8) + ToLe(kind, 4) + ToLe(fileNameSize, 4) + ToLe(size, 4)
  }

  /** The bytes of a message. */
  function Encode(m: Message): (s: seq<Byte>)
    ensures |s| == SizeOf(m)
  {
    Header(TypeOf(m), |NameField(m)|, SizeOf(m)) + Fixed(m) + NameField(m) + DataField(m)
  }

  predicate Fields(m: Message)
  {
    match m
    case OpenFile(_, blkSize, _, _) => blkSize < WORD
    case FileSize(_, fileSize, _) => fileSize < DWORD
    case RequestBlk(_, start, end) => start < WORD && end < WORD
    case Write(_, _, compSize, fp, sn) => compSize < WORD && fp < DWORD && sn < WORD
    case Ack(ackType) => ackType < WORD
    case _ => true
  }

  /** The fields fit, and the name has no NUL. */
  predicate Sendable(m: Message)
  {
    Fields(m) && SizeOf(m) < WORD && (Named(m) ==> 0 !in m.name)
  }

  // ---------------------------------------------------------------- reading a packet

  function Field(pkt: seq<Byte>, at: nat, width: nat): nat
    requires at + width <= |pkt|
  {
    FromLe(pkt[at..at + width])
  }

  function MagicOf(pkt: seq<Byte>): nat requires |pkt| >= HEADER { Field(pkt, 0, 8) }

  function GetMsgType(pkt: seq<Byte>): nat requires |pkt| >= HEADER { Field(pkt, 8, 4) }

  function NameSize(pkt: seq<Byte>): nat requires |pkt| >= HEADER { Field(pkt, 12, 4) }

  function PacketSize(pkt: seq<Byte>): nat requires |pkt| >= HEADER { Field(pkt, 16, 4) }

  /** sizeof of the structure of each type. */
  function FixedOf(kind: nat): (n: nat)
    ensures HEADER <= n <= WRITE
  {
    if kind == OPEN_FILE_MSG then 26
    else if kind == FILE_SIZE_MSG then 29
    else if kind == REQ_BLK_MSG then 28
    else if kind == SEND_BLK_MSG then SEND_BLK
    else if kind == WRITE_MSG then WRITE
    else if kind == ACK_MSG then 24
    else HEADER
  }

  /** What the packet's own fields say about the size of its data. */
  function DataSize(pkt: seq<Byte>): nat
    requires |pkt| >= WRITE
  {
    var kind := GetMsgType(pkt);
    if kind == SEND_BLK_MSG then Field(pkt, 28, 4) else if kind == WRITE_MSG then Field(pkt, 20, 4) else 0
  }

  /** checkMsg: is `size` the size that the header and the type call for? `pkt` is the receive buffer. */
  predicate CheckMsg(pkt: seq<Byte>, size: nat)
    requires |pkt| >= WRITE
  {
    MagicOf(pkt) == MAGIC && GetMsgType(pkt) <= ACK_MSG && size == PacketSize(pkt)
    && size == Trunc32(NameSize(pkt) + FixedOf(GetMsgType(pkt)) + DataSize(pkt))
  }

  /** The bytes from `at` to the first NUL, as std::string's constructor takes them. */
  function CString(pkt: seq<Byte>, at: nat): seq<Byte>
    decreases |pkt| - at
  {
    if at >= |pkt| || pkt[at] == 0 then [] else [pkt[at]] + CString(pkt, at + 1)
  }

  /** As long as the structure of its type, which is one of those below. */
  predicate Parsable(pkt: seq<Byte>)
  {
    |pkt| >= HEADER && |pkt| >= FixedOf(GetMsgType(pkt)) && GetMsgType(pkt) <= ACK_MSG
    && GetMsgType(pkt) != SEND_BLK_MSG
  }

  /** The parsers, by type; the types without fields are their own meaning. */
  function Parse(pkt: seq<Byte>): Message
    requires Parsable(pkt)
  {
    var kind := GetMsgType(pkt);
    if kind == OPEN_FILE_MSG then OpenFile(CString(pkt, 26), Field(pkt, 20, 4), pkt[24] != 0, pkt[25] != 0)
    else if kind == REQ_FILE_SIZE_MSG then RequestSize(CString(pkt, HEADER))
    else if kind == FILE_SIZE_MSG then FileSize(CString(pkt, 29), Field(pkt, 20, 8), pkt[28])
    else if kind == REQ_BLK_MSG then RequestBlk(CString(pkt, 28), Field(pkt, 20, 4), Field(pkt, 24, 4))
    else if kind == CLOSE_FILE_MSG then CloseFile(CString(pkt, HEADER))
    else if kind == CLOSE_CON_MSG then CloseCon
    else if kind == CLOSE_SERVER_MSG then CloseServer
    else if kind == PING_MSG then Ping
    else if kind == WRITE_MSG then
      Write(CString(pkt, WRITE), WrittenData(pkt), Field(pkt, 24, 4), Field(pkt, 28, 8), Field(pkt, 36, 4))
    else Ack(Field(pkt, 20, 4))
  }

  /** The bytes behind the name, as many as the packet says. */
  function WrittenData(pkt: seq<Byte>): seq<Byte>
    requires |pkt| >= WRITE
  {
    var at := Min(|pkt|, WRITE + NameSize(pkt));
    pkt[at..Min(|pkt|, at + Field(pkt, 20, 4))]
  }

  // ---------------------------------------------------------------- reading back what was written

  lemma Widths()
    ensures Pow256(4) == WORD && Pow256(8) == DWORD
  {
    assert Pow256(4) == 256 * Pow256(3) && Pow256(3) == 256 * Pow256(2) && Pow256(2) == 256 * Pow256(1);
    assert Pow256(8) == 256 * Pow256(7) && Pow256(7) == 256 * Pow256(6) && Pow256(6) == 256 * Pow256(5);
    assert Pow256(5) == 256 * Pow256(4);
  }

  lemma Field4(pkt: seq<Byte>, at: nat, v: nat)
    requires at + 4 <= |pkt| && pkt[at..at + 4] == ToLe(v, 4) && v < WORD
    ensures Field(pkt, at, 4) == v
  {
    Widths();
    LeRoundTrip(v, 4);
  }

  lemma Field8(pkt: seq<Byte>, at: nat, v: nat)
    requires at + 8 <= |pkt| && pkt[at..at + 8] == ToLe(v, 8) && v < DWORD
    ensures Field(pkt, at, 8) == v
  {
    Widths();
    LeRoundTrip(v, 8);
  }

  lemma HeaderFields(pkt: seq<Byte>, kind: nat, fileNameSize: nat, size: nat)
    requires |pkt| >= HEADER && pkt[..HEADER] == Header(kind, fileNameSize, size)
    requires kind < WORD && fileNameSize < WORD && size < WORD
    ensures MagicOf(pkt) == MAGIC && GetMsgType(pkt) == kind && NameSize(pkt) == fileNameSize && PacketSize(pkt) == size
  {
    var h := Header(kind, fileNameSize, size);
    assert pkt[0..8] == h[0..8] == ToLe(MAGIC, 8);
    assert pkt[8..12] == h[8..12] == ToLe(kind, 4);
    assert pkt[12..16] == h[12..16] == ToLe(fileNameSize, 4);
    assert pkt[16..20] == h[16..20] == ToLe(size, 4);
    hide Field, ToLe;
    Field8(pkt, 0, MAGIC);
    Field4(pkt, 8, kind);
    Field4(pkt, 12, fileNameSize);
    Field4(pkt, 16, size);
  }

  lemma {:induction false} CStringIs(pkt: seq<Byte>, at: nat, name: seq<Byte>)
    requires 0 !in name && at + |name| < |pkt| && pkt[at..at + |name|] == name && pkt[at + |name|] == 0
    ensures CString(pkt, at) == name
    decreases |name|
  {
    if name != [] {
      assert pkt[at] == name[0];
      assert pkt[at + 1..at + |name|] == name[1..];
      CStringIs(pkt, at + 1, name[1..]);
      assert name == [name[0]] + name[1..];
    }
  }

  lemma FourParts(pkt: seq<Byte>, h: seq<Byte>, f: seq<Byte>, n: seq<Byte>, d: seq<Byte>, r: seq<Byte>)
    requires pkt == h + f + n + d + r
    ensures var at, name := |h| + |f|, |h| + |f| + |n|;
            name + |d| <= |pkt| && pkt[..|h|] == h && pkt[|h|..at] == f && pkt[at..name] == n
            && pkt[name..name + |d|] == d
  {
    MiddlePart(pkt, h + f + n, d, r);
    assert pkt == h + f + n + (d + r);
    MiddlePart(pkt, h + f, n, d + r);
    assert pkt == h + f + (n + (d + r));
    MiddlePart(pkt, h, f, n + (d + r));
    assert pkt == h + (f + (n + (d + r)));
  }

  /** The sections of a packet that starts with a message. */
  lemma Sections(pkt: seq<Byte>, m: Message)
    requires Encode(m) <= pkt
    ensures var at, name := HEADER + |Fixed(m)|, HEADER + |Fixed(m)| + |NameField(m)|;
            name + |DataField(m)| == SizeOf(m) <= |pkt|
            && pkt[..HEADER] == Header(TypeOf(m), |NameField(m)|, SizeOf(m)) && pkt[HEADER..at] == Fixed(m)
            && pkt[at..name] == NameField(m) && pkt[name..name + |DataField(m)|] == DataField(m)
  {
    hide Header, Fixed, NameField, DataField, TypeOf;
    assert pkt == Encode(m) + pkt[SizeOf(m)..];
    FourParts(pkt, Header(TypeOf(m), |NameField(m)|, SizeOf(m)), Fixed(m), NameField(m), DataField(m),
              pkt[SizeOf(m)..]);
  }

  lemma FixedWidth(m: Message)
    ensures HEADER + |Fixed(m)| == FixedOf(TypeOf(m))
  {
  }

  lemma EncodedHeader(pkt: seq<Byte>, m: Message)
    requires Encode(m) <= pkt && Sendable(m)
    ensures |pkt| >= FixedOf(TypeOf(m)) && MagicOf(pkt) == MAGIC && GetMsgType(pkt) == TypeOf(m)
            && NameSize(pkt) == |NameField(m)| && PacketSize(pkt) == SizeOf(m)
  {
    Sections(pkt, m);
    FixedWidth(m);
    hide Fixed, NameField, DataField, Encode, MagicOf, GetMsgType, NameSize, PacketSize;
    HeaderFields(pkt, TypeOf(m), |NameField(m)|, SizeOf(m));
  }

  lemma EncodedName(pkt: seq<Byte>, m: Message)
    requires Encode(m) <= pkt && Sendable(m) && Named(m)
    ensures CString(pkt, FixedOf(TypeOf(m))) == m.name
  {
    Sections(pkt, m);
    FixedWidth(m);
    hide Fixed, DataField, Encode, Header, CString, TypeOf, FixedOf;
    EndsWithNul(pkt, FixedOf(TypeOf(m)), m.name);
  }

  lemma EndsWithNul(pkt: seq<Byte>, at: nat, name: seq<Byte>)
    requires at + |name| + 1 <= |pkt| && pkt[at..at + |name| + 1] == name + [0] && 0 !in name
    ensures CString(pkt, at) == name
  {
    SameSlice(name + [0], |name| + 1, pkt, at, 0, |name|);
    assert pkt[at + |name|] == pkt[at..at + |name| + 1][|name|];
    CStringIs(pkt, at, name);
  }

  /** A piece of the fields between header and name. */
  lemma FixedPiece(pkt: seq<Byte>, m: Message, i: nat, j: nat)
    requires Encode(m) <= pkt && i <= j <= |Fixed(m)|
    ensures HEADER + j <= |pkt| && pkt[HEADER + i..HEADER + j] == Fixed(m)[i..j]
  {
    hide *;
    Sections(pkt, m);
    SameSlice(Fixed(m), |Fixed(m)|, pkt, HEADER, i, j);
  }

  lemma WriteFields(m: Message)
    requires m.Write?
    ensures |Fixed(m)| == 20 && Fixed(m)[0..4] == ToLe(|m.data|, 4) && Fixed(m)[4..8] == ToLe(m.compSize, 4)
    ensures Fixed(m)[8..16] == ToLe(m.fp, 8) && Fixed(m)[16..20] == ToLe(m.sn, 4)
  {
    assert Fixed(m) == Fixed(m) + [];
    FourParts(Fixed(m), ToLe(|m.data|, 4), ToLe(m.compSize, 4), ToLe(m.fp, 8), ToLe(m.sn, 4), []);
  }

  lemma EncodedDataSize(pkt: seq<Byte>, m: Message)
    requires Encode(m) <= pkt && Sendable(m) && m.Write?
    ensures |pkt| >= WRITE && Field(pkt, 20, 4) == |m.data|
  {
    WriteFields(m);
    FixedPiece(pkt, m, 0, 4);
    hide Encode, Field, ToLe, Fixed;
    Field4(pkt, 20, |m.data|);
  }

  lemma EncodedData(pkt: seq<Byte>, m: Message)
    requires Encode(m) <= pkt && Sendable(m) && |pkt| >= WRITE
    ensures DataSize(pkt) == |DataField(m)|
  {
    EncodedHeader(pkt, m);
    if m.Write? { EncodedDataSize(pkt, m); }
    hide Encode, GetMsgType, Field, SizeOf, NameField, Sendable;
  }

  lemma SumsUp(m: Message)
    requires Sendable(m)
    ensures Trunc32(|NameField(m)| + FixedOf(TypeOf(m)) + |DataField(m)|) == SizeOf(m)
  {
    FixedWidth(m);
    hide NameField, DataField, Fixed, TypeOf;
  }

  lemma Checks(pkt: seq<Byte>, size: nat)
    requires |pkt| >= WRITE && MagicOf(pkt) == MAGIC && GetMsgType(pkt) <= ACK_MSG && size == PacketSize(pkt)
    requires size == Trunc32(NameSize(pkt) + FixedOf(GetMsgType(pkt)) + DataSize(pkt))
    ensures CheckMsg(pkt, size)
  {
  }

  /** checkMsg accepts every message, whatever stale bytes follow it in the buffer. */
  lemma EncodedChecks(pkt: seq<Byte>, m: Message)
    requires Encode(m) <= pkt && Sendable(m) && |pkt| >= WRITE
    ensures CheckMsg(pkt, SizeOf(m))
  {
    hide *;
    EncodedHeader(pkt, m);
    EncodedData(pkt, m);
    SumsUp(m);
    Checks(pkt, SizeOf(m));
  }

  lemma OpenFileFields(m: Message)
    requires m.OpenFile?
    ensures |Fixed(m)| == 6 && Fixed(m)[0..4] == ToLe(m.blkSize, 4)
    ensures Fixed(m)[4] == (if m.compress then 1 else 0) && Fixed(m)[5] == (if m.output then 1 else 0)
  {
  }

  lemma FileSizeFields(m: Message)
    requires m.FileSize?
    ensures |Fixed(m)| == 9 && Fixed(m)[0..8] == ToLe(m.fileSize, 8) && Fixed(m)[8] == m.open
  {
  }

  lemma RequestBlkFields(m: Message)
    requires m.RequestBlk?
    ensures |Fixed(m)| == 8 && Fixed(m)[0..4] == ToLe(m.start, 4) && Fixed(m)[4..8] == ToLe(m.end, 4)
  {
  }

  lemma AckFields(m: Message)
    requires m.Ack?
    ensures |Fixed(m)| == 4 && Fixed(m)[0..4] == ToLe(m.ackType, 4)
  {
  }

  lemma FixedByte(pkt: seq<Byte>, m: Message, i: nat)
    requires Encode(m) <= pkt && i < |Fixed(m)|
    ensures HEADER + i < |pkt| && pkt[HEADER + i] == Fixed(m)[i]
  {
    FixedPiece(pkt, m, i, i + 1);
    hide *;
    assert pkt[HEADER + i..HEADER + i + 1][0] == Fixed(m)[i..i + 1][0];
  }

  lemma Fixed4(pkt: seq<Byte>, m: Message, i: nat, v: nat)
    requires Encode(m) <= pkt && i + 4 <= |Fixed(m)| && Fixed(m)[i..i + 4] == ToLe(v, 4) && v < WORD
    ensures HEADER + i + 4 <= |pkt| && Field(pkt, HEADER + i, 4) == v
  {
    hide Encode, Fixed, Field, ToLe;
    FixedPiece(pkt, m, i, i + 4);
    Field4(pkt, HEADER + i, v);
  }

  lemma Fixed8(pkt: seq<Byte>, m: Message, i: nat, v: nat)
    requires Encode(m) <= pkt && i + 8 <= |Fixed(m)| && Fixed(m)[i..i + 8] == ToLe(v, 8) && v < DWORD
    ensures HEADER + i + 8 <= |pkt| && Field(pkt, HEADER + i, 8) == v
  {
    hide Encode, Fixed, Field, ToLe;
    FixedPiece(pkt, m, i, i + 8);
    Field8(pkt, HEADER + i, v);
  }

  lemma ParsesOpenFile(m: Message)
    requires m.OpenFile? && Sendable(m)
    ensures Parsable(Encode(m)) && Parse(Encode(m)) == m
  {
    var pkt := Encode(m);
    hide Encode, Fixed, Field, GetMsgType, CString, ToLe, SizeOf, NameField;
    EncodedHeader(pkt, m);
    EncodedName(pkt, m);
    OpenFileFields(m);
    Fixed4(pkt, m, 0, m.blkSize);
    FixedByte(pkt, m, 4);
    FixedByte(pkt, m, 5);
  }

  lemma ParsesFileSize(m: Message)
    requires m.FileSize? && Sendable(m)
    ensures Parsable(Encode(m)) && Parse(Encode(m)) == m
  {
    var pkt := Encode(m);
    hide Encode, Fixed, Field, GetMsgType, CString, ToLe, SizeOf, NameField;
    EncodedHeader(pkt, m);
    EncodedName(pkt, m);
    FileSizeFields(m);
    Fixed8(pkt, m, 0, m.fileSize);
    FixedByte(pkt, m, 8);
  }

  lemma ParsesRequestBlk(m: Message)
    requires m.RequestBlk? && Sendable(m)
    ensures Parsable(Encode(m)) && Parse(Encode(m)) == m
  {
    var pkt := Encode(m);
    hide Encode, Fixed, Field, GetMsgType, CString, ToLe, SizeOf, NameField;
    EncodedHeader(pkt, m);
    EncodedName(pkt, m);
    RequestBlkFields(m);
    Fixed4(pkt, m, 0, m.start);
    Fixed4(pkt, m, 4, m.end);
  }

  lemma WriteDataBack(m: Message)
    requires m.Write? && Sendable(m)
    ensures |Encode(m)| >= WRITE && WrittenData(Encode(m)) == m.data
  {
    var pkt := Encode(m);
    assert |NameField(m)| + WRITE + |m.data| == SizeOf(m) == |pkt|;
    hide Encode, Fixed, Field, NameSize, NameField, SizeOf, Sendable, Header;
    EncodedHeader(pkt, m);
    EncodedDataSize(pkt, m);
    Sections(pkt, m);
    FixedWidth(m);
  }

  lemma ParsesWrite(m: Message)
    requires m.Write? && Sendable(m)
    ensures Parsable(Encode(m)) && Parse(Encode(m)) == m
  {
    var pkt := Encode(m);
    hide Encode, Fixed, Field, GetMsgType, CString, ToLe, SizeOf, NameField, WrittenData;
    EncodedHeader(pkt, m);
    EncodedName(pkt, m);
    WriteDataBack(m);
    WriteFields(m);
    Fixed4(pkt, m, 4, m.compSize);
    Fixed8(pkt, m, 8, m.fp);
    Fixed4(pkt, m, 16, m.sn);
  }

  lemma ParsesAck(m: Message)
    requires m.Ack? && Sendable(m)
    ensures Parsable(Encode(m)) && Parse(Encode(m)) == m
  {
    var pkt := Encode(m);
    hide Encode, Fixed, Field, GetMsgType, ToLe, SizeOf;
    EncodedHeader(pkt, m);
    AckFields(m);
    Fixed4(pkt, m, 0, m.ackType);
  }

  lemma ParsesBare(m: Message)
    requires (m.RequestSize? || m.CloseFile? || !Named(m)) && !m.Ack? && Sendable(m)
    ensures Parsable(Encode(m)) && Parse(Encode(m)) == m
  {
    var pkt := Encode(m);
    hide Encode, GetMsgType, CString, SizeOf, Fixed, NameField;
    EncodedHeader(pkt, m);
    if Named(m) { EncodedName(pkt, m); }
  }

  /** Parsing what was built gives the message back. */
  lemma ParseEncoded(m: Message)
    requires Sendable(m)
    ensures Parsable(Encode(m)) && Parse(Encode(m)) == m
  {
    hide Encode, Parsable, Parse, Sendable;
    match m
    case OpenFile(_, _, _, _) => ParsesOpenFile(m);
    case FileSize(_, _, _) => ParsesFileSize(m);
    case RequestBlk(_, _, _) => ParsesRequestBlk(m);
    case Write(_, _, _, _, _) => ParsesWrite(m);
    case Ack(_) => ParsesAck(m);
    case _ => ParsesBare(m);
  }

  // ---------------------------------------------------------------- the senders

  /** Store the next bytes of a packet. */
  method Store(buff: array<Byte>, at: nat, bytes: seq<Byte>, ghost before: seq<Byte>) returns (end: nat)
    requires at + |bytes| <= buff.Length && at == |before| && buff[..at] == before
    modifies buff
    ensures end == at + |bytes| && buff[..end] == before + bytes
    ensures buff[end..] == old(buff[at + |bytes|..])
  {
    CopyInto(buff, at, bytes);
    end := at + |bytes|;
  }

  lemma SameTail(s: seq<Byte>, t: seq<Byte>, i: nat, j: nat)
    requires i <= j <= |s| == |t| && s[i..] == t[i..]
    ensures s[j..] == t[j..]
  {
    assert s[j..] == s[i..][j - i..];
    assert t[j..] == t[i..][j - i..];
  }

  method FillMsgHeader(buff: array<Byte>, kind: nat, fileNameSize: nat, size: nat)
    requires buff.Length >= HEADER
    modifies buff
    ensures buff[..HEADER] == Header(kind, fileNameSize, size) && buff[HEADER..] == old(buff[HEADER..])
  {
    hide ToLe;
    ghost var p1, p2 := ToLe(MAGIC, 8), ToLe(MAGIC, 8) + ToLe(kind, 4);
    ghost var p3 := p2 + ToLe(fileNameSize, 4);
    ghost var b0 := buff[..];
    var end := Store(buff, 0, ToLe(MAGIC, 8), []);
    assert p1 == [] + p1;
    SameTail(b0, buff[..], end, HEADER);
    end := Store(buff, end, ToLe(kind, 4), p1);
    SameTail(b0, buff[..], HEADER, HEADER);
    end := Store(buff, end, ToLe(fileNameSize, 4), p2);
    end := Store(buff, end, ToLe(size, 4), p3);
  }

  /** Header, fields, name and terminator: what every sender of a named message writes. */
  /** Store the next bytes of a packet, which leaves what is behind them as it was in `whole`. */
  method StoreNext(buff: array<Byte>, at: nat, bytes: seq<Byte>, ghost before: seq<Byte>, ghost whole: seq<Byte>)
    returns (end: nat)
    requires at + |bytes| <= buff.Length == |whole| && at == |before| && buff[..at] == before
    requires buff[at..] == whole[at..]
    modifies buff
    ensures end == at + |bytes| && buff[..end] == before + bytes && buff[end..] == whole[end..]
  {
    SameTail(whole, buff[..], at, at + |bytes|);
    end := Store(buff, at, bytes, before);
  }

  method FillNamed(buff: array<Byte>, m: Message)
    requires Named(m) && buff.Length >= HEADER + |Fixed(m)| + |m.name| + 1
    modifies buff
    ensures var end := HEADER + |Fixed(m)| + |m.name| + 1;
            buff[..end] == Header(TypeOf(m), |m.name| + 1, SizeOf(m)) + Fixed(m) + (m.name + [0])
            && buff[end..] == old(buff[end..])
  {
    hide Header, Fixed, SizeOf, TypeOf;
    ghost var whole := buff[..];
    ghost var h := Header(TypeOf(m), |m.name| + 1, SizeOf(m));
    var fixed := Fixed(m);
    FillMsgHeader(buff, TypeOf(m), |m.name| + 1, SizeOf(m));
    var end := StoreNext(buff, HEADER, fixed, h, whole);
    end := StoreNext(buff, end, m.name, h + fixed, whole);
    end := StoreNext(buff, end, [0], h + fixed + m.name, whole);
    assert h + fixed + m.name + [0] == h + fixed + (m.name + [0]);
  }

  lemma EncodeShape(m: Message)
    ensures var n := if Named(m) then |m.name| + 1 else 0;
            |NameField(m)| == n && SizeOf(m) == HEADER + |Fixed(m)| + n + |DataField(m)|
            && Encode(m) == Header(TypeOf(m), n, SizeOf(m)) + Fixed(m) + NameField(m) + DataField(m)
            && (!m.Write? ==> Encode(m) == Header(TypeOf(m), n, SizeOf(m)) + Fixed(m) + NameField(m))
            && (!Named(m) ==> Encode(m) == Header(TypeOf(m), 0, SizeOf(m)) + Fixed(m))
  {
    hide Header, Fixed, TypeOf;
  }

  /** The senders of named messages without data: a fresh packet. */
  method Build(m: Message) returns (buff: array<Byte>)
    requires Named(m) && !m.Write?
    ensures fresh(buff) && buff[..] == Encode(m)
  {
    EncodeShape(m);
    assert NameField(m) == m.name + [0] && DataField(m) == [];
    hide Header, Fixed, TypeOf, Encode, NameField, DataField, SizeOf;
    buff := new Byte[SizeOf(m)];
    FillNamed(buff, m);
    assert buff[..SizeOf(m)] == buff[..];
  }

  /** The senders of messages without a name. */
  method BuildBare(m: Message) returns (buff: array<Byte>)
    requires !Named(m)
    ensures fresh(buff) && buff[..] == Encode(m)
  {
    EncodeShape(m);
    assert DataField(m) == [];
    hide Header, Fixed, TypeOf, Encode, NameField, DataField, SizeOf;
    buff := new Byte[SizeOf(m)];
    FillMsgHeader(buff, TypeOf(m), 0, SizeOf(m));
    var end := Store(buff, HEADER, Fixed(m), Header(TypeOf(m), 0, SizeOf(m)));
    assert buff[..end] == buff[..];
  }

  /** sendWriteMsg fills in the front of a buffer that already holds the data behind it. */
  method BuildWrite(pkt: array<Byte>, m: Message)
    requires m.Write? && pkt.Length >= SizeOf(m)
    requires pkt[WRITE + |m.name| + 1..SizeOf(m)] == m.data
    modifies pkt
    ensures pkt[..SizeOf(m)] == Encode(m)
  {
    EncodeShape(m);
    FixedWidth(m);
    assert NameField(m) == m.name + [0] && DataField(m) == m.data && TypeOf(m) == WRITE_MSG;
    hide Header, Fixed, TypeOf, Encode, NameField, DataField, SizeOf;
    ghost var b0 := pkt[..];
    FillNamed(pkt, m);
    ghost var at := WRITE + |m.name| + 1;
    SameData(b0, pkt[..], at, SizeOf(m));
    SplitAt(pkt[..], at, SizeOf(m));
  }

  lemma SplitAt(s: seq<Byte>, i: nat, j: nat)
    requires i <= j <= |s|
    ensures s[..j] == s[..i] + s[i..j]
  {
  }

  lemma SameData(s: seq<Byte>, t: seq<Byte>, i: nat, j: nat)
    requires i <= j <= |s| == |t| && s[i..] == t[i..]
    ensures s[i..j] == t[i..j]
  {
    assert s[i..j] == s[i..][..j - i];
    assert t[i..j] == t[i..][..j - i];
  }
}
