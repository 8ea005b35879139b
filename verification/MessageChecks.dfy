/** What checkMsg lets through: only packets written as the headers and structures of messages are. */
module MessageChecks {
  import opened Arith
  import opened Bytes
  import opened Message

  // ---------------------------------------------------------------- numbers back to bytes

  lemma {:induction false} LeBack(s: seq<Byte>)
    ensures ToLe(FromLe(s), |s|) == s && FromLe(s) < Pow256(|s|)
  {
    if s != [] {
      LeBack(s[1..]);
      assert s == [s[0]] + s[1..];
    }
  }

  lemma FieldBack(pkt: seq<Byte>, at: nat, width: nat)
    requires at + width <= |pkt|
    ensures ToLe(Field(pkt, at, width), width) == pkt[at..at + width] && Field(pkt, at, width) < Pow256(width)
  {
    LeBack(pkt[at..at + width]);
  }

  lemma FieldOfPart(pkt: seq<Byte>, n: nat, at: nat, width: nat)
    requires at + width <= n <= |pkt|
    ensures Field(pkt[..n], at, width) == Field(pkt, at, width)
  {
    assert pkt[..n][at..at + width] == pkt[at..at + width];
  }

  // ---------------------------------------------------------------- what is accepted

  /** The size of the data that the structure of this type announces. */
  function Announced(pkt: seq<Byte>, kind: nat): nat
    requires |pkt| >= FixedOf(kind)
  {
    if kind == SEND_BLK_MSG then Field(pkt, 28, 4) else if kind == WRITE_MSG then Field(pkt, 20, 4) else 0
  }

  /** As long as its header says, which begins as those of messages do: magic, a known type, sizes. The sizes of
      structure, name and data add up modulo 2^32. */
  ghost predicate HeadedBy(pkt: seq<Byte>, kind: nat, nameSize: nat, dataSize: nat)
  {
    kind <= ACK_MSG && nameSize < WORD && dataSize < WORD && |pkt| >= HEADER
    && pkt[..HEADER] == Header(kind, nameSize, |pkt|) && |pkt| == Trunc32(nameSize + FixedOf(kind) + dataSize)
    && (|pkt| >= FixedOf(kind) ==> dataSize == Announced(pkt, kind))
  }

  ghost predicate WellFormed(pkt: seq<Byte>)
  {
    exists kind, nameSize, dataSize :: HeadedBy(pkt, kind, nameSize, dataSize)
  }

  lemma HeaderBack(pkt: seq<Byte>)
    requires |pkt| >= HEADER && MagicOf(pkt) == MAGIC
    ensures pkt[..HEADER] == Header(GetMsgType(pkt), NameSize(pkt), PacketSize(pkt))
    ensures GetMsgType(pkt) < WORD && NameSize(pkt) < WORD && PacketSize(pkt) < WORD
  {
    Widths();
    hide Field, ToLe, Pow256;
    FieldBack(pkt, 0, 8);
    FieldBack(pkt, 8, 4);
    FieldBack(pkt, 12, 4);
    FieldBack(pkt, 16, 4);
    assert pkt[..HEADER] == pkt[0..8] + pkt[8..12] + pkt[12..16] + pkt[16..20];
  }

  lemma AnnouncedIs(pkt: seq<Byte>, size: nat)
    requires |pkt| >= WRITE && HEADER <= size <= |pkt| && size >= FixedOf(GetMsgType(pkt))
    ensures DataSize(pkt) == Announced(pkt[..size], GetMsgType(pkt))
  {
    hide Field;
    if GetMsgType(pkt) == SEND_BLK_MSG { FieldOfPart(pkt, size, 28, 4); }
    if GetMsgType(pkt) == WRITE_MSG { FieldOfPart(pkt, size, 20, 4); }
  }

  lemma DataSizeFits(pkt: seq<Byte>)
    requires |pkt| >= WRITE
    ensures DataSize(pkt) < WORD
  {
    Widths();
    hide Field, Pow256;
    FieldBack(pkt, 28, 4);
    FieldBack(pkt, 20, 4);
  }

  /** Whatever stale bytes the receive buffer holds behind it. */
  lemma CheckedIsWellFormed(buffer: seq<Byte>, size: nat)
    requires |buffer| >= WRITE && HEADER <= size <= |buffer| && CheckMsg(buffer, size)
    ensures WellFormed(buffer[..size])
  {
    hide Header, FixedOf, DataSize, NameSize, GetMsgType, MagicOf, PacketSize, CheckMsg, Announced;
    var pkt, kind := buffer[..size], GetMsgType(buffer);
    CheckParts(buffer, size);
    HeaderBack(buffer);
    DataSizeFits(buffer);
    assert pkt[..HEADER] == buffer[..HEADER];
    if size >= FixedOf(kind) { AnnouncedIs(buffer, size); }
    assert HeadedBy(pkt, kind, NameSize(buffer), DataSize(buffer));
  }

  lemma CheckParts(buffer: seq<Byte>, size: nat)
    requires |buffer| >= WRITE && CheckMsg(buffer, size)
    ensures MagicOf(buffer) == MAGIC && GetMsgType(buffer) <= ACK_MSG && size == PacketSize(buffer)
    ensures size == Trunc32(NameSize(buffer) + FixedOf(GetMsgType(buffer)) + DataSize(buffer))
  {
  }

  /** A packet that does not begin with the magic number is not. */
  lemma MagicFirst(pkt: seq<Byte>)
    requires WellFormed(pkt)
    ensures |pkt| >= HEADER && pkt[..8] == ToLe(MAGIC, 8)
  {
    var kind, nameSize, dataSize :| HeadedBy(pkt, kind, nameSize, dataSize);
    hide ToLe;
    assert pkt[..8] == pkt[..HEADER][..8] == Header(kind, nameSize, |pkt|)[..8];
  }

  // ---------------------------------------------------------------- packets that are messages

  predicate NamedKind(kind: nat)
  {
    kind !in {CLOSE_CON_MSG, CLOSE_SERVER_MSG, PING_MSG, ACK_MSG}
  }

  /** A packet that passes the check without wrapping, whose name field is one terminated string and whose flags are
      0 or 1. */
  predicate Complete(pkt: seq<Byte>)
  {
    Parsable(pkt) && MagicOf(pkt) == MAGIC && PacketSize(pkt) == |pkt|
    && var kind, n := GetMsgType(pkt), NameSize(pkt);
       |pkt| == FixedOf(kind) + n + Announced(pkt, kind)
       && (if NamedKind(kind) then |CString(pkt, FixedOf(kind))| + 1 == n && pkt[FixedOf(kind) + n - 1] == 0
           else n == 0)
       && (kind == OPEN_FILE_MSG ==> pkt[24] <= 1 && pkt[25] <= 1)
  }

  lemma {:induction false} CStringBack(pkt: seq<Byte>, at: nat)
    requires at <= |pkt|
    ensures var name := CString(pkt, at);
            at + |name| <= |pkt| && pkt[at..at + |name|] == name && 0 !in name
    decreases |pkt| - at
  {
    if at < |pkt| && pkt[at] != 0 {
      CStringBack(pkt, at + 1);
      var rest := CString(pkt, at + 1);
      assert pkt[at..at + 1 + |rest|] == [pkt[at]] + pkt[at + 1..at + 1 + |rest|];
    }
  }

  /** The kind is that of the message read. */
  lemma ParsedKind(pkt: seq<Byte>)
    requires Parsable(pkt)
    ensures TypeOf(Parse(pkt)) == GetMsgType(pkt) && (Named(Parse(pkt)) <==> NamedKind(GetMsgType(pkt)))
    ensures Named(Parse(pkt)) ==> Parse(pkt).name == CString(pkt, FixedOf(GetMsgType(pkt)))
  {
    hide Field, CString, WrittenData;
  }

  lemma NameBack(pkt: seq<Byte>)
    requires Complete(pkt)
    ensures var m, f, n := Parse(pkt), FixedOf(GetMsgType(pkt)), NameSize(pkt);
            |NameField(m)| == n && NameField(m) == pkt[f..f + n] && (Named(m) ==> 0 !in m.name)
  {
    var kind, n := GetMsgType(pkt), NameSize(pkt);
    var f := FixedOf(kind);
    ParsedKind(pkt);
    CStringBack(pkt, f);
    hide Parse, FixedOf, CString, GetMsgType, NameSize;
    if NamedKind(kind) { OneMoreByte(pkt, f, n); }
  }

  lemma OneMoreByte(pkt: seq<Byte>, f: nat, n: nat)
    requires n > 0 && f + n <= |pkt|
    ensures pkt[f..f + n] == pkt[f..f + n - 1] + [pkt[f + n - 1]]
  {
  }

  lemma OpenFileBack(pkt: seq<Byte>)
    requires Complete(pkt) && GetMsgType(pkt) == OPEN_FILE_MSG
    ensures Fixed(Parse(pkt)) == pkt[HEADER..FixedOf(OPEN_FILE_MSG)] && Fields(Parse(pkt))
  {
    Widths();
    hide Field, CString, ToLe, Pow256, GetMsgType, WrittenData;
    FieldBack(pkt, 20, 4);
    assert pkt[20..26] == pkt[20..24] + [pkt[24]] + [pkt[25]];
  }

  lemma FileSizeBack(pkt: seq<Byte>)
    requires Complete(pkt) && GetMsgType(pkt) == FILE_SIZE_MSG
    ensures Fixed(Parse(pkt)) == pkt[HEADER..FixedOf(FILE_SIZE_MSG)] && Fields(Parse(pkt))
  {
    Widths();
    hide Field, CString, ToLe, Pow256, GetMsgType, WrittenData;
    FieldBack(pkt, 20, 8);
    assert pkt[20..29] == pkt[20..28] + [pkt[28]];
  }

  lemma RequestBlkBack(pkt: seq<Byte>)
    requires Complete(pkt) && GetMsgType(pkt) == REQ_BLK_MSG
    ensures Fixed(Parse(pkt)) == pkt[HEADER..FixedOf(REQ_BLK_MSG)] && Fields(Parse(pkt))
  {
    Widths();
    hide Field, CString, ToLe, Pow256, GetMsgType, WrittenData;
    FieldBack(pkt, 20, 4);
    FieldBack(pkt, 24, 4);
    assert pkt[20..28] == pkt[20..24] + pkt[24..28];
  }

  lemma WrittenDataIs(pkt: seq<Byte>)
    requires Complete(pkt) && GetMsgType(pkt) == WRITE_MSG
    ensures |WrittenData(pkt)| == Field(pkt, 20, 4)
  {
    hide Field, CString;
  }

  lemma WriteBack(pkt: seq<Byte>)
    requires Complete(pkt) && GetMsgType(pkt) == WRITE_MSG
    ensures Fixed(Parse(pkt)) == pkt[HEADER..FixedOf(WRITE_MSG)] && Fields(Parse(pkt))
  {
    Widths();
    hide Field, CString, ToLe, Pow256, GetMsgType, WrittenData;
    WrittenDataIs(pkt);
    FieldBack(pkt, 20, 4);
    FieldBack(pkt, 24, 4);
    FieldBack(pkt, 28, 8);
    FieldBack(pkt, 36, 4);
    assert pkt[20..40] == pkt[20..24] + pkt[24..28] + pkt[28..36] + pkt[36..40];
  }

  lemma AckBack(pkt: seq<Byte>)
    requires Complete(pkt) && GetMsgType(pkt) == ACK_MSG
    ensures Fixed(Parse(pkt)) == pkt[HEADER..FixedOf(ACK_MSG)] && Fields(Parse(pkt))
  {
    Widths();
    hide Field, CString, ToLe, Pow256, GetMsgType, WrittenData;
    FieldBack(pkt, 20, 4);
  }

  /** The fields between header and name are those read. */
  lemma FixedBack(pkt: seq<Byte>)
    requires Complete(pkt)
    ensures Fixed(Parse(pkt)) == pkt[HEADER..FixedOf(GetMsgType(pkt))] && Fields(Parse(pkt))
  {
    var kind := GetMsgType(pkt);
    if kind == OPEN_FILE_MSG {
      OpenFileBack(pkt);
    } else if kind == FILE_SIZE_MSG {
      FileSizeBack(pkt);
    } else if kind == REQ_BLK_MSG {
      RequestBlkBack(pkt);
    } else if kind == WRITE_MSG {
      WriteBack(pkt);
    } else if kind == ACK_MSG {
      AckBack(pkt);
    } else {
      NoFieldsBack(pkt);
    }
    hide Parse, Fixed, Complete, GetMsgType;
  }

  lemma NoFieldsBack(pkt: seq<Byte>)
    requires Complete(pkt)
    requires GetMsgType(pkt) !in {OPEN_FILE_MSG, FILE_SIZE_MSG, REQ_BLK_MSG, WRITE_MSG, ACK_MSG}
    ensures Fixed(Parse(pkt)) == [] && FixedOf(GetMsgType(pkt)) == HEADER && Fields(Parse(pkt))
  {
    hide Field, CString, GetMsgType;
  }

  lemma DataBack(pkt: seq<Byte>)
    requires Complete(pkt)
    ensures DataField(Parse(pkt)) == pkt[FixedOf(GetMsgType(pkt)) + NameSize(pkt)..]
  {
    hide Field, CString;
  }

  lemma EncodeBy(pkt: seq<Byte>, m: Message, f: nat, n: nat)
    requires HEADER <= f && f + n <= |pkt| && pkt[..HEADER] == Header(TypeOf(m), n, |pkt|)
    requires Fixed(m) == pkt[HEADER..f] && NameField(m) == pkt[f..f + n] && DataField(m) == pkt[f + n..]
    ensures SizeOf(m) == |pkt| && Encode(m) == pkt
  {
    hide Header, Fixed, NameField, DataField, TypeOf;
    assert pkt == pkt[..HEADER] + pkt[HEADER..f] + pkt[f..f + n] + pkt[f + n..];
  }

  lemma CompleteSize(pkt: seq<Byte>)
    requires Complete(pkt)
    ensures Parsable(pkt) && MagicOf(pkt) == MAGIC && PacketSize(pkt) == |pkt|
    ensures HEADER <= FixedOf(GetMsgType(pkt)) && FixedOf(GetMsgType(pkt)) + NameSize(pkt) <= |pkt|
  {
  }

  /** Such a packet is the writing of the message it is read as. */
  lemma EncodeParsed(pkt: seq<Byte>)
    requires Complete(pkt)
    ensures Sendable(Parse(pkt)) && Encode(Parse(pkt)) == pkt
  {
    hide Complete, Parse, Fixed, NameField, DataField, Header, FixedOf, GetMsgType, NameSize, PacketSize, CString;
    hide Encode, SizeOf, MagicOf, Fields;
    CompleteSize(pkt);
    NameBack(pkt);
    FixedBack(pkt);
    DataBack(pkt);
    ParsedKind(pkt);
    HeaderBack(pkt);
    EncodeBy(pkt, Parse(pkt), FixedOf(GetMsgType(pkt)), NameSize(pkt));
  }

  lemma EncodedFlags(m: Message)
    requires m.OpenFile? && Sendable(m)
    ensures |Encode(m)| >= 26 && Encode(m)[24] <= 1 && Encode(m)[25] <= 1
  {
    hide Encode;
    OpenFileFields(m);
    FixedByte(Encode(m), m, 4);
    FixedByte(Encode(m), m, 5);
  }

  lemma EncodedAnnounces(m: Message)
    requires Sendable(m)
    ensures |Encode(m)| >= FixedOf(TypeOf(m)) && Announced(Encode(m), TypeOf(m)) == |DataField(m)|
  {
    EncodedHeader(Encode(m), m);
    if m.Write? { EncodedDataSize(Encode(m), m); }
    hide Encode, Field, SizeOf, NameField;
  }

  lemma EncodedNameEnds(m: Message)
    requires Sendable(m) && Named(m)
    ensures var f, n := FixedOf(TypeOf(m)), |m.name| + 1;
            f + n <= |Encode(m)| && Encode(m)[f + n - 1] == 0 && CString(Encode(m), f) == m.name
  {
    var pkt := Encode(m);
    EncodedName(pkt, m);
    Sections(pkt, m);
    FixedWidth(m);
    hide Encode, Fixed, FixedOf, TypeOf, CString, SizeOf, Header;
    var f := FixedOf(TypeOf(m));
    assert pkt[f..f + |m.name| + 1][|m.name|] == (m.name + [0])[|m.name|];
  }

  lemma KindOf(m: Message)
    ensures (Named(m) <==> NamedKind(TypeOf(m))) && (m.OpenFile? <==> TypeOf(m) == OPEN_FILE_MSG)
    ensures TypeOf(m) <= ACK_MSG && TypeOf(m) != SEND_BLK_MSG && |NameField(m)| == if Named(m) then |m.name| + 1 else 0
  {
  }

  lemma EncodedIsComplete(m: Message)
    requires Sendable(m)
    ensures Complete(Encode(m))
  {
    hide Encode, CString, Announced, FixedOf, GetMsgType, NameSize, PacketSize, MagicOf, Fixed, DataField, TypeOf;
    hide Named, NamedKind, NameField;
    EncodedHeader(Encode(m), m);
    EncodedAnnounces(m);
    FixedWidth(m);
    KindOf(m);
    if Named(m) { EncodedNameEnds(m); }
    if m.OpenFile? { EncodedFlags(m); }
  }

  /** And every message is written as such a packet: exactly those are messages. */
  lemma CompleteIffMessage(pkt: seq<Byte>)
    ensures Complete(pkt) <==> exists m :: Sendable(m) && Encode(m) == pkt
  {
    if Complete(pkt) {
      EncodeParsed(pkt);
    }
    if m :| Sendable(m) && Encode(m) == pkt {
      EncodedIsComplete(m);
    }
  }

  // ---------------------------------------------------------------- two packets in full

  lemma LittleEndian(n: nat, a: Byte, b: Byte, c: Byte, d: Byte)
    requires n == a as nat + 0x100 * b as nat + 0x1_0000 * c as nat + 0x100_0000 * d as nat
    ensures ToLe(n, 4) == [a, b, c, d] && ToLe(n, 8) == [a, b, c, d, 0, 0, 0, 0]
  {
    hide ToLe, FromLe;
    var s, z, t: seq<Byte> := [a, b, c, d], [0, 0, 0, 0], [a, b, c, d, 0, 0, 0, 0];
    FourBytes(s);
    LeBack(s);
    FourBytes(z);
    assert t[..4] == s && t[4..] == z;
    EightBytes(t);
    LeBack(t);
  }

  lemma PingPacket()
    ensures Encode(Ping) == [0xFD, 0xB4, 0x2A, 3, 0, 0, 0, 0, 8, 0, 0, 0, 0, 0, 0, 0, 20, 0, 0, 0]
  {
    hide ToLe;
    LittleEndian(MAGIC, 0xFD, 0xB4, 0x2A, 3);
    LittleEndian(PING_MSG, 8, 0, 0, 0);
    LittleEndian(0, 0, 0, 0, 0);
    LittleEndian(20, 20, 0, 0, 0);
  }

  /** The request for blocks 5 to 6 of a file named "a". */
  lemma RequestPacket()
    ensures Encode(RequestBlk([97], 5, 6)) ==
            [0xFD, 0xB4, 0x2A, 3, 0, 0, 0, 0, 3, 0, 0, 0, 2, 0, 0, 0, 30, 0, 0, 0, 5, 0, 0, 0, 6, 0, 0, 0, 97, 0]
  {
    hide ToLe;
    LittleEndian(MAGIC, 0xFD, 0xB4, 0x2A, 3);
    LittleEndian(REQ_BLK_MSG, 3, 0, 0, 0);
    LittleEndian(2, 2, 0, 0, 0);
    LittleEndian(30, 30, 0, 0, 0);
    LittleEndian(5, 5, 0, 0, 0);
    LittleEndian(6, 6, 0, 0, 0);
  }
}
