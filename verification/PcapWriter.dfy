/** The capture file writer: an object that appends blocks to its file and counts bytes, proved to
    keep the file equal to the encoding of what was written, which the reader of module PcapNg
    decodes back exactly. Text is represented by its UTF-8 bytes. */
module PcapWriter {
  import opened Prelude
  import opened PcapNg

  type Ascii = s: string | forall i :: 0 <= i < |s| ==> s[i] < 128 as char

  /** The bytes are the character codes of the text. */
  predicate Spells(b: seq<Byte>, s: string) {
    |b| == |s| && forall i | 0 <= i < |s| :: b[i] == s[i] as int
  }

  function Utf8(s: Ascii): (b: seq<Byte>)
    ensures Spells(b, s)
  {
    seq(|s|, i requires 0 <= i < |s| => s[i] as int)
  }

  /** One packet written. `ticks` is the timestamp in microseconds; the message type may be empty. */
  datatype Frame = Frame(interfaceId: nat, messageType: seq<Byte>, payload: seq<Byte>, ticks: int)

  datatype WriteError = EmptyMessageType | FieldOutOfRange | FileClosed

  function Comment(messageType: seq<Byte>): seq<Byte> {
    Utf8("type=") + messageType
  }

  /** Two's complement: the low `bits` of a possibly negative integer, as `& (bound - 1)` does. */
  function Masked(n: int, bound: nat): (m: nat)
    requires bound > 0
    ensures m < bound
  {
    n % bound
  }

  function PacketHead(h: PacketFields): (s: seq<Byte>)
    ensures |s| == 20
  {
    U32(h.interfaceId) + U32(h.high) + U32(h.low) + U32(h.captured) + U32(h.original)
  }

  function FieldsOf(f: Frame): PacketFields {
    PacketFields(f.interfaceId, Masked(f.ticks / WORD, WORD), Masked(f.ticks, WORD), |f.payload|, |f.payload|)
  }

  function CommentOption(f: Frame): TypedOption {
    TypedOption(EPB_COMMENT, Comment(f.messageType))
  }

  function OptionsOf(f: Frame): seq<TypedOption> {
    if f.messageType == [] then [] else [CommentOption(f)]
  }

  function PacketBody(f: Frame): seq<Byte> {
    PacketHead(FieldsOf(f)) + (Padded(f.payload) + EncodeOptions(OptionsOf(f)))
  }

  /** What the fixed-width fields of an enhanced packet block can hold. */
  predicate Fits(f: Frame) {
    && f.interfaceId < WORD
    && |f.payload| < WORD
    && |Comment(f.messageType)| < HALF
    && 12 + |PacketBody(f)| < WORD
  }

  function PacketBlock(f: Frame): Block {
    Block(ENHANCED_PACKET_BLOCK, PacketBody(f))
  }

  function SectionBlock(): Block {
    Block(SECTION_HEADER_BLOCK,
          U32(BYTE_ORDER_MAGIC) + U16(VERSION_MAJOR) + U16(VERSION_MINOR)
          + U32(WORD - 1) + U32(WORD - 1) + EndOfOptions())
  }

  function InterfaceOptions(name: Ascii, hint: Ascii): seq<TypedOption> {
    [ TypedOption(IF_NAME, Utf8(name)),
      TypedOption(IF_DESCRIPTION, Utf8("proto:") + Utf8(hint)),
      TypedOption(IF_FILTER, U16(0) + (Utf8("proto:") + Utf8(hint))),
      TypedOption(IF_PROTOCOLS, Utf8(hint)),
      TypedOption(IF_TSRESOL, [6]) ]
  }

  function InterfaceBlock(linkType: nat, name: Ascii, hint: Ascii): Block {
    Block(INTERFACE_DESCRIPTION_BLOCK,
          U16(linkType) + U16(0) + U32(SNAPLEN) + EncodeOptions(InterfaceOptions(name, hint)))
  }

  const MESH_NAME: Ascii := "meshtastic"
  const MESH_HINT: Ascii := "protobuf.meshtastic.MeshPacket"
  const DATA_NAME: Ascii := "meshtastic-data"
  const DATA_HINT: Ascii := "protobuf.meshtastic.Data"
  const MESH_TYPE: Ascii := "meshtastic.MeshPacket"
  const DATA_TYPE: Ascii := "meshtastic.Data"

  function HeaderBlocks(): seq<Block> {
    [SectionBlock(), InterfaceBlock(LINKTYPE, MESH_NAME, MESH_HINT), InterfaceBlock(LINKTYPE, DATA_NAME, DATA_HINT)]
  }

  function PacketBlocks(fs: seq<Frame>): (bs: seq<Block>)
    ensures |bs| == |fs|
    ensures forall i | 0 <= i < |fs| :: bs[i] == PacketBlock(fs[i])
  {
    if fs == [] then [] else PacketBlocks(fs[..|fs| - 1]) + [PacketBlock(fs[|fs| - 1])]
  }

  /** Every block of a file that has accepted the frames `fs`. */
  function FileBlocks(fs: seq<Frame>): seq<Block> {
    HeaderBlocks() + PacketBlocks(fs)
  }

  function FileBytes(fs: seq<Frame>): seq<Byte> {
    EncodeBlocks(FileBlocks(fs))
  }

  ghost predicate AllFit(fs: seq<Frame>) {
    forall i | 0 <= i < |fs| :: Fits(fs[i])
  }

  // ------------------------------------------------------------ reading back

  /** The two interface descriptions every capture starts with. */
  function Links(): seq<Interface> {
    [ Interface(LINKTYPE, SNAPLEN, InterfaceOptions(MESH_NAME, MESH_HINT)),
      Interface(LINKTYPE, SNAPLEN, InterfaceOptions(DATA_NAME, DATA_HINT)) ]
  }

  /** What a reader must see of a frame. */
  function Seen(f: Frame): Packet {
    Packet(f.interfaceId,
           if f.interfaceId < 2 then Some(Links()[f.interfaceId]) else None,
           Masked(f.ticks, WORD * WORD), |f.payload|, f.payload,
           OptionsOf(f))
  }

  function SeenAll(fs: seq<Frame>): (ps: seq<Packet>)
    ensures |ps| == |fs|
    ensures forall i | 0 <= i < |fs| :: ps[i] == Seen(fs[i])
  {
    if fs == [] then [] else SeenAll(fs[..|fs| - 1]) + [Seen(fs[|fs| - 1])]
  }

  lemma SplitTimestamp(ticks: int)
    ensures Masked(ticks / WORD, WORD) * WORD + Masked(ticks, WORD) == Masked(ticks, WORD * WORD)
  {
    var high, low := ticks / WORD, ticks % WORD;
    var top, middle := high / WORD, high % WORD;
    var joined := middle * WORD + low;
    assert ticks == top * (WORD * WORD) + joined;
    assert 0 <= joined < WORD * WORD;
    assert ticks % (WORD * WORD) == joined;
  }

  lemma ReadWrittenSection()
    ensures ReadSection(SectionBlock().body) == Some(Section(1, 0, None))
    ensures SectionBlock().Encodable()
  {
    hide LittleEndian, Unsigned, ReadUint, ReadOptions, U16, U32;
    var s5 := EndOfOptions();
    var s4 := U32(WORD - 1) + s5;
    var s3 := U32(WORD - 1) + s4;
    var s2 := U16(VERSION_MINOR) + s3;
    var s1 := U16(VERSION_MAJOR) + s2;
    assert SectionBlock().body == U32(BYTE_ORDER_MAGIC) + s1;
    ReadU32(BYTE_ORDER_MAGIC, s1);
    ReadU16(VERSION_MAJOR, s2);
    ReadU16(VERSION_MINOR, s3);
    ReadU32(WORD - 1, s4);
    ReadU32(WORD - 1, s5);
    ReadEndOfOptions();
  }

  lemma ReadWrittenInterface(linkType: nat, name: Ascii, hint: Ascii)
    requires linkType < HALF && |name| < 1000 && |hint| < 1000
    ensures ReadInterface(InterfaceBlock(linkType, name, hint).body) == Some(Interface(linkType, SNAPLEN, InterfaceOptions(name, hint)))
    ensures InterfaceBlock(linkType, name, hint).Encodable()
  {
    hide LittleEndian, Unsigned, ReadUint, ReadOptions, U16, U32, EncodeOption, Utf8;
    var os := InterfaceOptions(name, hint);
    var s3 := EncodeOptions(os);
    var s2 := U32(SNAPLEN) + s3;
    var s1 := U16(0) + s2;
    assert InterfaceBlock(linkType, name, hint).body == U16(linkType) + s1;
    ReadU16(linkType, s1);
    ReadU16(0, s2);
    ReadU32(SNAPLEN, s3);
    ReadWrittenOptions(os);
    OptionsLength(os, 2000);
  }

  lemma {:induction false} OptionsLength(os: seq<TypedOption>, bound: nat)
    requires forall i | 0 <= i < |os| :: |os[i].value| <= bound
    ensures |EncodeOptions(os)| <= 4 + (8 + bound) * |os|
  {
    hide EncodeOption;
    if os != [] {
      OptionsLength(os[1..], bound);
      var n := |os| - 1;
      assert (8 + bound) * (n + 1) == (8 + bound) * n + 8 + bound;
      assert |EncodeOption(os[0])| <= 8 + bound;
    }
  }

  /** Bytes one frame adds to the file: with a message type, 40 and the two padded lengths. */
  function Cost(f: Frame): nat {
    36 + Pad4(|f.payload|) + if f.messageType == [] then 0 else 4 + Pad4(5 + |f.messageType|)
  }

  lemma OptionsOfLength(f: Frame)
    ensures |EncodeOptions(OptionsOf(f))| == 4 + if f.messageType == [] then 0 else 4 + Pad4(5 + |f.messageType|)
  {
    hide EncodeOption, Pad4;
    if f.messageType != [] {
      OneOption(CommentOption(f));
    }
  }

  lemma OneOption(o: TypedOption)
    ensures EncodeOptions([o]) == EncodeOption(o) + EndOfOptions()
  {
    hide EncodeOption, EndOfOptions;
    assert [o][1..] == [];
  }

  lemma PacketLength(f: Frame)
    ensures PacketBlock(f).Length() == Cost(f) && |PacketBody(f)| % 4 == 0
  {
    hide Pad4, PacketHead, EncodeOptions, OptionsOf;
    OptionsOfLength(f);
  }

  lemma ReadWrittenPayload(payload: seq<Byte>, os: seq<TypedOption>)
    requires AllEncodable(os)
    ensures var s := Padded(payload) + EncodeOptions(os);
            && |s| >= Pad4(|payload|)
            && s[..|payload|] == payload
            && ReadOptions(s[Pad4(|payload|)..]) == Some(os)
  {
    hide EncodeOptions, ReadOptions, Pad4;
    var s := Padded(payload) + EncodeOptions(os);
    assert s[Pad4(|payload|)..] == EncodeOptions(os);
    ReadWrittenOptions(os);
  }

  lemma ReadWrittenFields(h: PacketFields, rest: seq<Byte>)
    requires h.interfaceId < WORD && h.high < WORD && h.low < WORD && h.captured < WORD && h.original < WORD
    ensures ReadPacketFields(PacketHead(h) + rest) == Some((h, rest))
  {
    hide LittleEndian, Unsigned, ReadUint, U32;
    var s4 := U32(h.original) + rest;
    var s3 := U32(h.captured) + s4;
    var s2 := U32(h.low) + s3;
    var s1 := U32(h.high) + s2;
    assert PacketHead(h) + rest == U32(h.interfaceId) + s1;
    ReadU32(h.interfaceId, s1);
    ReadU32(h.high, s2);
    ReadU32(h.low, s3);
    ReadU32(h.captured, s4);
    ReadU32(h.original, rest);
  }

  lemma FieldsInRange(f: Frame)
    requires Fits(f)
    ensures var h := FieldsOf(f);
            h.interfaceId < WORD && h.high < WORD && h.low < WORD && h.captured < WORD && h.original < WORD
    ensures AllEncodable(OptionsOf(f))
  {
    hide PacketBody, Utf8;
  }

  lemma ReadWrittenPacket(f: Frame)
    requires Fits(f)
    ensures ReadPacket(PacketBody(f), Links()) == Some(Seen(f))
  {
    hide ReadPacketFields, ReadOptions, EncodeOptions, OptionsOf, Masked, Padded, Pad4, PacketHead, AllEncodable;
    hide Fits, InterfaceOptions;
    var h := FieldsOf(f);
    var rest := Padded(f.payload) + EncodeOptions(OptionsOf(f));
    FieldsInRange(f);
    ReadWrittenFields(h, rest);
    ReadWrittenPayload(f.payload, OptionsOf(f));
    assert h.high * WORD + h.low == Seen(f).ticks by { SplitTimestamp(f.ticks); }
  }

  lemma {:induction false} EncodeBlocksConcat(a: seq<Block>, b: seq<Block>)
    ensures EncodeBlocks(a + b) == EncodeBlocks(a) + EncodeBlocks(b)
  {
    hide EncodeBlock;
    if b == [] {
      assert a + b == a;
    } else {
      var init, last := b[..|b| - 1], b[|b| - 1];
      assert (a + b)[..|a + b| - 1] == a + init;
      EncodeBlocksConcat(a, init);
    }
  }

  lemma HeaderWritable()
    ensures Writable(HeaderBlocks())
    ensures SectionBlock().Encodable()
    ensures InterfaceBlock(LINKTYPE, MESH_NAME, MESH_HINT).Encodable()
    ensures InterfaceBlock(LINKTYPE, DATA_NAME, DATA_HINT).Encodable()
  {
    hide SectionBlock, InterfaceBlock, InterfaceOptions, ReadSection, ReadInterface, Block.Encodable;
    ReadWrittenSection();
    ReadWrittenInterface(LINKTYPE, MESH_NAME, MESH_HINT);
    ReadWrittenInterface(LINKTYPE, DATA_NAME, DATA_HINT);
  }

  lemma PacketBlockWritable(f: Frame)
    requires Fits(f)
    ensures PacketBlock(f).Encodable()
  {
    hide PacketBody;
    PacketLength(f);
  }

  lemma FileWritable(fs: seq<Frame>)
    requires AllFit(fs)
    ensures Writable(FileBlocks(fs))
  {
    hide HeaderBlocks, PacketBody;
    HeaderWritable();
    forall i | 0 <= i < |fs|
      ensures PacketBlocks(fs)[i].Encodable()
    {
      PacketBlockWritable(fs[i]);
    }
  }

  /** What a reader gets out of a file that accepted `fs`. */
  function Recovered(fs: seq<Frame>): Capture {
    Capture(Section(VERSION_MAJOR, VERSION_MINOR, None), Links(), SeenAll(fs))
  }

  lemma DecodeHeader()
    ensures Decode(HeaderBlocks()) == Some(Recovered([]))
  {
    hide ReadSection, ReadInterface, InterfaceOptions;
    var bs := HeaderBlocks();
    ReadWrittenSection();
    ReadWrittenInterface(LINKTYPE, MESH_NAME, MESH_HINT);
    ReadWrittenInterface(LINKTYPE, DATA_NAME, DATA_HINT);
    assert bs[..2][..1] == [bs[0]] && bs[..2][1] == bs[1];
    assert Decode(bs[..2]) == Some(Capture(Section(1, 0, None), [Links()[0]], [])) by {
      assert [] + [Links()[0]] == [Links()[0]];
    }
    assert [Links()[0]] + [Links()[1]] == Links();
  }

  lemma {:induction false} DecodeFile(fs: seq<Frame>)
    requires AllFit(fs)
    ensures Decode(FileBlocks(fs)) == Some(Recovered(fs))
  {
    hide HeaderBlocks, Links, PacketBody, ReadPacket, Fits;
    if fs == [] {
      DecodeHeader();
      assert FileBlocks(fs) == HeaderBlocks();
    } else {
      var init, last := fs[..|fs| - 1], fs[|fs| - 1];
      DecodeFile(init);
      assert |HeaderBlocks()| == 3 by { HeaderCount(); }
      var bs := FileBlocks(fs);
      assert bs[..|bs| - 1] == FileBlocks(init);
      assert bs[|bs| - 1] == PacketBlock(last);
      ReadWrittenPacket(last);
    }
  }

  lemma HeaderCount()
    ensures |HeaderBlocks()| == 3
  {
  }

  /** The whole-file round trip: parsing the bytes gives one section header, the two interface
      descriptions with their options, and exactly the frames, in order. */
  lemma RoundTrip(fs: seq<Frame>)
    requires AllFit(fs)
    ensures ReadFile(FileBytes(fs)) == Some(Recovered(fs))
  {
    hide FileBlocks, Decode, ReadBlocks, Recovered;
    FileWritable(fs);
    ReadWrittenBlocks(FileBlocks(fs));
    DecodeFile(fs);
  }

  /** The frame is on a described interface and within the declared snapshot length. */
  predicate WithinSnapLen(f: Frame) {
    f.interfaceId < 2 && |f.payload| <= SNAPLEN
  }

  lemma SeenConformsIff(f: Frame)
    ensures Conforms(Seen(f)) <==> WithinSnapLen(f)
  {
    hide InterfaceOptions, OptionsOf, Masked;
  }

  lemma AllConformIff(fs: seq<Frame>)
    ensures (forall p | p in SeenAll(fs) :: Conforms(p)) <==> (forall f | f in fs :: WithinSnapLen(f))
  {
    var ps := SeenAll(fs);
    assert |ps| == |fs| && forall i | 0 <= i < |fs| :: ps[i] == Seen(fs[i]);
    hide SeenAll, Conforms, WithinSnapLen, Seen;
    forall i | 0 <= i < |fs|
      ensures Conforms(ps[i]) <==> WithinSnapLen(fs[i])
    {
      SeenConformsIff(fs[i]);
    }
    if forall p | p in ps :: Conforms(p) {
      forall f | f in fs
        ensures WithinSnapLen(f)
      {
        var i :| 0 <= i < |fs| && fs[i] == f;
        assert ps[i] in ps;
      }
    }
    if forall f | f in fs :: WithinSnapLen(f) {
      forall p | p in ps
        ensures Conforms(p)
      {
        var i :| 0 <= i < |ps| && ps[i] == p;
        assert fs[i] in fs;
      }
    }
  }

  /** A reader that also insists on described interfaces and on the declared snapshot length gets
      the same capture if and only if every frame keeps to them, and rejects the file otherwise: the
      writer declares 65535 bytes but accepts longer payloads and any interface id. */
  lemma ConformingRoundTripIff(fs: seq<Frame>)
    requires AllFit(fs)
    ensures ReadConforming(FileBytes(fs)) == if forall f | f in fs :: WithinSnapLen(f) then Some(Recovered(fs)) else None
  {
    RoundTrip(fs);
    AllConformIff(fs);
    ReadConformingIs(FileBytes(fs), Recovered(fs));
    assert Recovered(fs).packets == SeenAll(fs) by { hide SeenAll; }
    hide *;
  }

  lemma ReadConformingIs(s: seq<Byte>, c: Capture)
    requires ReadFile(s) == Some(c)
    ensures ReadConforming(s) == if forall p | p in c.packets :: Conforms(p) then Some(c) else None
  {
    hide ReadFile, Conforms;
  }

  /** The writer does accept such frames: one on an interface it never described, */
  lemma UndescribedInterfaceAccepted()
    ensures var f := Frame(7, [65], [], 0);
            Fits(f) && !WithinSnapLen(f) && ReadConforming(FileBytes([f])) == None
  {
    NonconformingRejected(Frame(7, [65], [], 0));
  }

  /** and one a byte longer than the declared snapshot length, whatever the bytes. */
  lemma OverlongPayloadAccepted(payload: seq<Byte>)
    requires |payload| == 65536
    ensures var f := Frame(0, [65], payload, 0);
            Fits(f) && !WithinSnapLen(f) && ReadConforming(FileBytes([f])) == None
  {
    NonconformingRejected(Frame(0, [65], payload, 0));
  }

  lemma NonconformingRejected(f: Frame)
    requires f.interfaceId < WORD && |f.payload| <= 65536 && |f.messageType| == 1 && !WithinSnapLen(f)
    ensures Fits(f) && ReadConforming(FileBytes([f])) == None
  {
    PacketLength(f);
    assert |PacketBody(f)| == Cost(f) - 12;
    hide PacketBody, PacketHead, Pad4, FileBytes, ReadConforming, WithinSnapLen, EncodeBlocks;
    assert Fits(f) by { assert Pad4(|f.payload|) < |f.payload| + 4 && Pad4(5 + 1) < 10; }
    assert f in [f];
    ConformingRoundTripIff([f]);
  }

  /** Walking backwards from the end by the trailing lengths visits the same blocks and ends
      exactly at offset 0. */
  lemma BackwardWalk(fs: seq<Frame>)
    requires AllFit(fs)
    ensures ReadBlocksBackward(FileBytes(fs)) == ReadBlocks(FileBytes(fs)) == Some(FileBlocks(fs))
  {
    hide FileBlocks;
    FileWritable(fs);
    ReadWrittenBlocks(FileBlocks(fs));
    ReadWrittenBlocksBackward(FileBlocks(fs));
  }

  // ------------------------------------------------------------ sizes

  const HEADER_SIZE: nat := 352

  function TotalCost(fs: seq<Frame>): nat {
    if fs == [] then 0 else TotalCost(fs[..|fs| - 1]) + Cost(fs[|fs| - 1])
  }

  lemma OptionsSize(first: seq<TypedOption>, rest: seq<TypedOption>)
    requires |first| == 1
    ensures |EncodeOptions(first + rest)| == 4 + Pad4(|first[0].value|) + |EncodeOptions(rest)|
  {
    hide EncodeOption, Pad4;
    assert (first + rest)[1..] == rest;
  }

  lemma OptionsSize5(a: TypedOption, b: TypedOption, c: TypedOption, d: TypedOption, e: TypedOption)
    ensures |EncodeOptions([a, b, c, d, e])|
         == 24 + Pad4(|a.value|) + Pad4(|b.value|) + Pad4(|c.value|) + Pad4(|d.value|) + Pad4(|e.value|)
  {
    hide EncodeOption, Pad4;
    assert [a, b, c, d, e] == [a] + [b, c, d, e];
    OptionsSize([a], [b, c, d, e]);
    assert [b, c, d, e] == [b] + [c, d, e];
    OptionsSize([b], [c, d, e]);
    assert [c, d, e] == [c] + [d, e];
    OptionsSize([c], [d, e]);
    assert [d, e] == [d] + [e];
    OptionsSize([d], [e]);
    assert [e] == [e] + [];
    OptionsSize([e], []);
  }

  lemma InterfaceLength(name: Ascii, hint: Ascii)
    ensures InterfaceBlock(LINKTYPE, name, hint).Length()
         == 48 + Pad4(|name|) + Pad4(6 + |hint|) + Pad4(8 + |hint|) + Pad4(|hint|)
  {
    hide EncodeOptions;
    var os := InterfaceOptions(name, hint);
    OptionsSize5(os[0], os[1], os[2], os[3], os[4]);
  }

  lemma HeaderSize()
    ensures |EncodeBlocks(HeaderBlocks())| == HEADER_SIZE
  {
    InterfaceLength(MESH_NAME, MESH_HINT);
    InterfaceLength(DATA_NAME, DATA_HINT);
    hide SectionBlock, InterfaceBlock, EncodeBlock;
    var bs := HeaderBlocks();
    SectionLength();
    assert EncodeBlocks(bs) == EncodeBlocks(bs[..2]) + EncodeBlock(bs[2]);
    assert bs[..2][..1] == bs[..1] && bs[..2][1] == bs[1];
    assert EncodeBlocks(bs[..2]) == EncodeBlocks(bs[..1]) + EncodeBlock(bs[1]);
    assert bs[..1][..0] == [];
    assert EncodeBlocks(bs[..1]) == EncodeBlocks([]) + EncodeBlock(bs[0]);
  }

  lemma SectionLength()
    ensures SectionBlock().Length() == 32
  {
  }

  lemma {:induction false} PacketBytes(fs: seq<Frame>)
    ensures |EncodeBlocks(PacketBlocks(fs))| == TotalCost(fs)
  {
    hide PacketBody, EncodeBlock;
    if fs != [] {
      var init, last := fs[..|fs| - 1], fs[|fs| - 1];
      PacketBytes(init);
      PacketLength(last);
      assert PacketBlocks(fs)[..|fs| - 1] == PacketBlocks(init);
    }
  }

  /** Byte accounting: the file is the fixed header plus the cost of each frame. */
  lemma FileSize(fs: seq<Frame>)
    ensures |FileBytes(fs)| == HEADER_SIZE + TotalCost(fs)
  {
    hide HeaderBlocks, EncodeBlocks, PacketBlocks;
    EncodeBlocksConcat(HeaderBlocks(), PacketBlocks(fs));
    HeaderSize();
    PacketBytes(fs);
  }

  lemma FilePrefix(fs: seq<Frame>, m: nat)
    requires m <= |fs|
    ensures FileBlocks(fs[..m]) == FileBlocks(fs)[..m + 3]
  {
    hide HeaderBlocks;
    HeaderCount();
  }

  /** Every block is flushed as it is written, so a file may stop at any byte. Cut it anywhere past
      the header: the reader recovers exactly the frames that end at or before the cut. */
  lemma TruncatedFile(fs: seq<Frame>, k: nat) returns (m: nat)
    requires AllFit(fs)
    requires HEADER_SIZE <= k <= |FileBytes(fs)|
    ensures m <= |fs|
    ensures Decode(Complete(FileBytes(fs)[..k])) == Some(Recovered(fs[..m]))
    ensures |FileBytes(fs[..m])| <= k
    ensures m < |fs| ==> k < |FileBytes(fs[..m + 1])|
  {
    hide FileBlocks, HeaderBlocks, EncodeBlocks, Complete, Decode, Recovered, Fits, Block.Encodable;
    var bs := FileBlocks(fs);
    FileWritable(fs);
    CutFile(bs, k);
    var c := Complete(FileBytes(fs)[..k]);
    assert |bs| == 3 + |fs| && bs[..3] == HeaderBlocks() by { FilePrefix(fs, 0); FilePrefix(fs, |fs|); HeaderBlocksFirst(fs); }
    if |c| < 3 {
      var j := |c| + 1;
      EncodeBlocksConcat(bs[..j], bs[j..3]);
      assert bs[..j] + bs[j..3] == bs[..3];
      HeaderSize();
      assert false;
    }
    m := |c| - 3;
    FilePrefix(fs, m);
    assert c == bs[..m + 3];
    assert AllFit(fs[..m]);
    DecodeFile(fs[..m]);
    if m < |fs| {
      FilePrefix(fs, m + 1);
    }
  }

  lemma HeaderBlocksFirst(fs: seq<Frame>)
    ensures |FileBlocks(fs)| == 3 + |fs| && FileBlocks(fs)[..3] == HeaderBlocks()
  {
    hide HeaderBlocks;
    HeaderCount();
  }

  // ------------------------------------------------------------ what a reader learns

  /** The fields of a frame as a reader finds them, spelled out without the writer's functions. */
  ghost predicate ReadsAs(p: Packet, f: Frame) {
    && p.interfaceId == f.interfaceId && p.data == f.payload && p.originalLength == |f.payload|
    && p.ticks == f.ticks % 0x1_0000_0000_0000_0000
    && MessageTypeOf(p) == if f.messageType == [] then None else Some(f.messageType)
  }

  lemma CommentStarts(messageType: seq<Byte>)
    ensures |Comment(messageType)| == 5 + |messageType|
    ensures Comment(messageType)[..5] == [116, 121, 112, 101, 61] && Comment(messageType)[5..] == messageType
  {
    var t := Utf8("type=");
    assert t == [116, 121, 112, 101, 61];
  }

  lemma SeenReads(f: Frame)
    ensures ReadsAs(Seen(f), f)
  {
    CommentStarts(f.messageType);
    hide Comment, Links;
  }

  /** Packet `i` of the parsed file has the interface, payload, time and message type of frame `i`,
      and there are no others. */
  lemma PacketsRead(fs: seq<Frame>)
    requires AllFit(fs)
    ensures var c := ReadFile(FileBytes(fs));
            && c.Some? && |c.value.packets| == |fs|
            && forall i | 0 <= i < |fs| :: ReadsAs(c.value.packets[i], fs[i])
  {
    RoundTrip(fs);
    assert Recovered(fs).packets == SeenAll(fs);
    hide ReadFile, FileBytes, AllFit, Recovered, ReadsAs, Seen;
    forall i | 0 <= i < |fs|
      ensures ReadsAs(SeenAll(fs)[i], fs[i])
    {
      SeenReads(fs[i]);
    }
  }

  lemma ReadsAsOne(p: Packet, f: Frame, g: Frame)
    requires ReadsAs(p, f) && ReadsAs(p, g)
    requires 0 <= f.ticks < 0x1_0000_0000_0000_0000 && 0 <= g.ticks < 0x1_0000_0000_0000_0000
    ensures f == g
  {
    hide MessageTypeOf;
  }

  /** Nothing of a frame is lost: with times in range, equal files come from equal frames. */
  lemma FileDetermines(fs: seq<Frame>, gs: seq<Frame>)
    requires AllFit(fs) && AllFit(gs) && FileBytes(fs) == FileBytes(gs)
    requires forall f | f in fs + gs :: 0 <= f.ticks < 0x1_0000_0000_0000_0000
    ensures fs == gs
  {
    PacketsRead(fs);
    PacketsRead(gs);
    hide ReadFile, FileBytes, AllFit, ReadsAs;
    var ps := ReadFile(FileBytes(fs)).value.packets;
    forall i | 0 <= i < |fs|
      ensures fs[i] == gs[i]
    {
      assert fs[i] in fs + gs && gs[i] in fs + gs;
      ReadsAsOne(ps[i], fs[i], gs[i]);
    }
  }

  /** What an interface description says: link type 162, 65535 bytes, microseconds, its name, and the
      protocol as description, as capture filter of kind 0, and by itself. */
  ghost predicate Describes(i: Interface, name: string, protocol: string) {
    && i.linkType == 162 && i.snapLen == 65535
    && SpelledOption(i, 2, name) && SpelledOption(i, 3, "proto:" + protocol) && SpelledOption(i, 19, protocol)
    && (var filter := ValueOf(i.options, 11); filter.Some? && |filter.value| >= 2 && filter.value[..2] == [0, 0] && Spells(filter.value[2..], "proto:" + protocol))
    && ValueOf(i.options, 9) == Some([6])
  }

  ghost predicate SpelledOption(i: Interface, code: nat, text: string) {
    var v := ValueOf(i.options, code);
    v.Some? && Spells(v.value, text)
  }

  lemma ValuesOfFive(a: TypedOption, b: TypedOption, c: TypedOption, d: TypedOption, e: TypedOption)
    requires a.code == 2 && b.code == 3 && c.code == 11 && d.code == 19 && e.code == 9
    ensures var os := [a, b, c, d, e];
            && ValueOf(os, 2) == Some(a.value) && ValueOf(os, 3) == Some(b.value) && ValueOf(os, 11) == Some(c.value)
            && ValueOf(os, 19) == Some(d.value) && ValueOf(os, 9) == Some(e.value)
  {
    var o5, o4, o3, o2 := [e], [d, e], [c, d, e], [b, c, d, e];
    assert [a, b, c, d, e][1..] == o2 && o2[1..] == o3 && o3[1..] == o4 && o4[1..] == o5;
    assert ValueOf(o5, 9) == Some(e.value);
    assert ValueOf(o4, 19) == Some(d.value) && ValueOf(o4, 9) == ValueOf(o5, 9);
    assert ValueOf(o3, 11) == Some(c.value) && ValueOf(o3, 19) == ValueOf(o4, 19) && ValueOf(o3, 9) == ValueOf(o4, 9);
    assert ValueOf(o2, 3) == Some(b.value) && ValueOf(o2, 11) == ValueOf(o3, 11) && ValueOf(o2, 19) == ValueOf(o3, 19) && ValueOf(o2, 9) == ValueOf(o3, 9);
  }

  lemma InterfaceDescribed(name: Ascii, hint: Ascii)
    ensures Describes(Interface(LINKTYPE, SNAPLEN, InterfaceOptions(name, hint)), name, hint)
  {
    var os := InterfaceOptions(name, hint);
    ValuesOfFive(os[0], os[1], os[2], os[3], os[4]);
    assert os == [os[0], os[1], os[2], os[3], os[4]];
    assert U16(0) == [0, 0] by { assert LittleEndian(0, 1) == [0] + LittleEndian(0, 0); }
    hide ValueOf, LittleEndian, U16;
    assert Spells(Utf8("proto:") + Utf8(hint), "proto:" + hint);
    assert os[2].value[2..] == Utf8("proto:") + Utf8(hint);
  }

  /** Every file describes exactly the mesh and the data interface, in that order. */
  lemma InterfacesRead(fs: seq<Frame>)
    requires AllFit(fs)
    ensures var c := ReadFile(FileBytes(fs));
            && c.Some? && c.value.section == Section(1, 0, None) && |c.value.interfaces| == 2
            && Describes(c.value.interfaces[0], "meshtastic", "protobuf.meshtastic.MeshPacket")
            && Describes(c.value.interfaces[1], "meshtastic-data", "protobuf.meshtastic.Data")
  {
    RoundTrip(fs);
    InterfaceDescribed(MESH_NAME, MESH_HINT);
    InterfaceDescribed(DATA_NAME, DATA_HINT);
    hide ReadFile, FileBytes, AllFit, Describes, InterfaceOptions, SeenAll;
  }

  /** What the writer accepts: the message type leaves room for `type=` in a 16-bit length, the
      interface id has 32 bits, and so has the length of the block. */
  lemma FitsIff(f: Frame)
    ensures Fits(f) <==>
              && f.interfaceId < 0x1_0000_0000 && |f.messageType| <= 65530
              && 36 + Pad4(|f.payload|) + (if f.messageType == [] then 0 else 4 + Pad4(5 + |f.messageType|)) < 0x1_0000_0000
  {
    PacketLength(f);
    CommentStarts(f.messageType);
    assert 12 + |PacketBody(f)| == Cost(f);
    hide PacketBody, Comment, Pad4;
  }

  /** The first bytes of every capture: a little-endian section header of 32 bytes, version 1.0,
      section length unspecified, no options. */
  lemma FileStarts(fs: seq<Frame>)
    ensures |FileBytes(fs)| >= 32
    ensures FileBytes(fs)[..32] == [0x0A, 0x0D, 0x0D, 0x0A] + [32, 0, 0, 0]
                                   + ([0x4D, 0x3C, 0x2B, 0x1A, 1, 0, 0, 0] + [255, 255, 255, 255, 255, 255, 255, 255] + [0, 0, 0, 0])
                                   + [32, 0, 0, 0]
  {
    SectionBytes();
    var bs := FileBlocks(fs);
    assert bs != [] && bs[0] == SectionBlock() by { HeaderBlocksFirst(fs); assert FileBlocks(fs)[0] == HeaderBlocks()[0]; }
    hide FileBlocks, SectionBlock, EncodeBlock;
    EncodeBlocksFirst(bs);
  }

  lemma FourBytes(n: nat)
    ensures U32(n) == [n % 256, n / 256 % 256, n / 256 / 256 % 256, n / 256 / 256 / 256 % 256]
  {
    var a, b, c := n / 256, n / 256 / 256, n / 256 / 256 / 256;
    assert LittleEndian(c / 256, 0) == [];
    assert LittleEndian(c, 1) == [c % 256];
    assert LittleEndian(b, 2) == [b % 256, c % 256];
    assert LittleEndian(a, 3) == [a % 256, b % 256, c % 256];
  }

  lemma TwoBytes(n: nat)
    ensures U16(n) == [n % 256, n / 256 % 256]
  {
    assert LittleEndian(n / 256 / 256, 0) == [];
    assert LittleEndian(n / 256, 1) == [n / 256 % 256];
  }

  lemma SectionBody()
    ensures SectionBlock().body == [0x4D, 0x3C, 0x2B, 0x1A, 1, 0, 0, 0] + [255, 255, 255, 255, 255, 255, 255, 255] + [0, 0, 0, 0]
  {
    FourBytes(BYTE_ORDER_MAGIC);
    FourBytes(WORD - 1);
    TwoBytes(0);
    TwoBytes(1);
    hide LittleEndian, U16, U32;
  }

  lemma SectionBytes()
    ensures EncodeBlock(SectionBlock()) == [0x0A, 0x0D, 0x0D, 0x0A] + [32, 0, 0, 0]
                                           + ([0x4D, 0x3C, 0x2B, 0x1A, 1, 0, 0, 0] + [255, 255, 255, 255, 255, 255, 255, 255] + [0, 0, 0, 0])
                                           + [32, 0, 0, 0]
  {
    FourBytes(SECTION_HEADER_BLOCK);
    FourBytes(32);
    SectionBody();
    SectionLength();
    var b := SectionBlock();
    assert b.kind == SECTION_HEADER_BLOCK;
    assert EncodeBlock(b) == U32(b.kind) + U32(b.Length()) + b.body + U32(b.Length());
    hide *;
    assert U32(SECTION_HEADER_BLOCK) == [0x0A, 0x0D, 0x0D, 0x0A] && U32(32) == [32, 0, 0, 0];
  }

  // ------------------------------------------------------------ the writer object

  class PcapNgWriter {
    var file: seq<Byte>
    var open: bool
    var bytesWritten: nat
    var nextInterfaceId: nat
    var meshInterfaceId: nat
    var dataInterfaceId: nat
    ghost var blocks: seq<Block>   // the blocks written so far
    ghost var frames: seq<Frame>   // the calls of write_packet accepted so far

    /** The file is a sequence of whole, well-formed blocks, and the counter agrees with it. */
    ghost predicate WellFormed()
      reads this
    {
      && Writable(blocks)
      && file == EncodeBlocks(blocks)
      && bytesWritten == |file|
    }

    ghost predicate Valid()
      reads this
    {
      && WellFormed()
      && AllFit(frames)
      && blocks == FileBlocks(frames)
      && nextInterfaceId == 2 && meshInterfaceId == 0 && dataInterfaceId == 1
    }

    constructor ()
      ensures Valid() && open && frames == []
    {
      file := [];
      open := true;
      bytesWritten := 0;
      nextInterfaceId := 0;
      meshInterfaceId, dataInterfaceId := 0, 0;
      blocks, frames := [], [];
      new;
      WriteHeader();
    }

    method WriteHeader()
      requires open && WellFormed() && blocks == [] && frames == [] && nextInterfaceId == 0
      modifies this`file, this`bytesWritten, this`blocks, this`nextInterfaceId, this`meshInterfaceId, this`dataInterfaceId
      ensures Valid()
    {
      hide SectionBlock, InterfaceBlock, Block.Encodable, EncodeBlock, EncodeBlocks, Writable;
      HeaderWritable();
      WriteSectionHeaderBlock();
      meshInterfaceId := WriteInterfaceDescriptionBlock(LINKTYPE, MESH_NAME, MESH_HINT);
      dataInterfaceId := WriteInterfaceDescriptionBlock(LINKTYPE, DATA_NAME, DATA_HINT);
      assert blocks == HeaderBlocks();
      assert blocks == FileBlocks([]);
    }

    method WriteBlock(blockType: nat, body: seq<Byte>)
      requires open && WellFormed() && Block(blockType, body).Encodable()
      modifies this`file, this`bytesWritten, this`blocks
      ensures WellFormed() && blocks == old(blocks) + [Block(blockType, body)]
      ensures file == old(file) + EncodeBlock(Block(blockType, body))
    {
      var blockTotalLength := 12 + |body|;
      var block := U32(blockType) + U32(blockTotalLength);
      block := block + body;
      block := block + U32(blockTotalLength);
      file := file + block;
      bytesWritten := bytesWritten + |block|;
      assert block == EncodeBlock(Block(blockType, body));
      blocks := blocks + [Block(blockType, body)];
      assert blocks[..|blocks| - 1] == old(blocks);
    }

    method WriteSectionHeaderBlock()
      requires open && WellFormed() && SectionBlock().Encodable()
      modifies this`file, this`bytesWritten, this`blocks
      ensures WellFormed() && blocks == old(blocks) + [SectionBlock()]
    {
      var body := U32(BYTE_ORDER_MAGIC) + U16(VERSION_MAJOR) + U16(VERSION_MINOR) + U32(WORD - 1) + U32(WORD - 1);
      body := body + (U16(0) + U16(0));
      assert Block(SECTION_HEADER_BLOCK, body) == SectionBlock();
      WriteBlock(SECTION_HEADER_BLOCK, body);
    }

    method WriteInterfaceDescriptionBlock(linkType: nat, name: Ascii, hint: Ascii) returns (id: nat)
      requires open && WellFormed() && InterfaceBlock(linkType, name, hint).Encodable()
      modifies this`file, this`bytesWritten, this`blocks, this`nextInterfaceId
      ensures WellFormed() && blocks == old(blocks) + [InterfaceBlock(linkType, name, hint)]
      ensures id == old(nextInterfaceId) && nextInterfaceId == id + 1
    {
      var description := Utf8("proto:") + Utf8(hint);
      var options := EncodeOption(TypedOption(IF_NAME, Utf8(name)));
      options := options + EncodeOption(TypedOption(IF_DESCRIPTION, description));
      options := options + EncodeOption(TypedOption(IF_FILTER, U16(0) + description));
      options := options + EncodeOption(TypedOption(IF_PROTOCOLS, Utf8(hint)));
      options := options + EncodeOption(TypedOption(IF_TSRESOL, [6]));
      options := options + (U16(0) + U16(0));
      var body := U16(linkType) + U16(0) + U32(SNAPLEN);
      body := body + options;
      assert Block(INTERFACE_DESCRIPTION_BLOCK, body) == InterfaceBlock(linkType, name, hint) by {
        EncodeFiveOptions(InterfaceOptions(name, hint));
      }
      id := nextInterfaceId;
      WriteBlock(INTERFACE_DESCRIPTION_BLOCK, body);
      nextInterfaceId := nextInterfaceId + 1;
    }

    /** Every failure leaves the file, the counter and the accepted frames as they were. */
    method WritePacket(messageType: seq<Byte>, payload: seq<Byte>, interfaceId: Option<int>, ticks: int)
      returns (r: Result<(), WriteError>)
      requires Valid()
      modifies this`file, this`bytesWritten, this`blocks, this`frames
      ensures Valid()
      ensures var id := if interfaceId == None then 0 else interfaceId.value;
              r == if messageType == [] then Err(EmptyMessageType)
                   else if id < 0 || !Fits(Frame(id, messageType, payload, ticks)) then Err(FieldOutOfRange)
                   else if !open then Err(FileClosed)
                   else Ok(())
      ensures r.Ok? ==> frames == old(frames) + [Frame(if interfaceId == None then 0 else interfaceId.value, messageType, payload, ticks)]
      ensures r.Err? ==> frames == old(frames) && file == old(file)
    {
      if messageType == [] {
        return Err(EmptyMessageType);
      }
      var id := if interfaceId == None then meshInterfaceId else interfaceId.value;
      if id < 0 {
        return Err(FieldOutOfRange);
      }
      r := WriteEnhancedPacketBlock(Frame(id, messageType, payload, ticks));
    }

    /** Without a message type the block has no comment. */
    method WriteEnhancedPacketBlock(f: Frame) returns (r: Result<(), WriteError>)
      requires Valid()
      modifies this`file, this`bytesWritten, this`blocks, this`frames
      ensures Valid()
      ensures r == if !Fits(f) then Err(FieldOutOfRange) else if !open then Err(FileClosed) else Ok(())
      ensures frames == if r.Ok? then old(frames) + [f] else old(frames)
      ensures r.Err? ==> file == old(file)
    {
      hide PacketBody, FileBlocks, Fits, EncodeBlock, EncodeBlocks, PacketHead, Padded, EncodeOption, EndOfOptions, CommentOption;
      if !Fits(f) {
        return Err(FieldOutOfRange);
      }
      var body := PacketHead(FieldsOf(f)) + Padded(f.payload);
      if f.messageType != [] {
        body := body + EncodeOption(CommentOption(f));
      }
      body := body + EndOfOptions();
      PacketBodyParts(f);
      if !open {
        return Err(FileClosed);
      }
      PacketBlockWritable(f);
      WriteBlock(ENHANCED_PACKET_BLOCK, body);
      frames := frames + [f];
      AppendFrame(old(frames), f);
      return Ok(());
    }

    method WriteMeshPacket(payload: seq<Byte>, ticks: int) returns (r: Result<(), WriteError>)
      requires Valid()
      modifies this`file, this`bytesWritten, this`blocks, this`frames
      ensures Valid()
      ensures r.Ok? <==> open && Fits(Frame(0, Utf8(MESH_TYPE), payload, ticks))
      ensures frames == if r.Ok? then old(frames) + [Frame(0, Utf8(MESH_TYPE), payload, ticks)] else old(frames)
    {
      r := WritePacket(Utf8(MESH_TYPE), payload, Some(meshInterfaceId), ticks);
    }

    method WriteDataPacket(payload: seq<Byte>, ticks: int) returns (r: Result<(), WriteError>)
      requires Valid()
      modifies this`file, this`bytesWritten, this`blocks, this`frames
      ensures Valid()
      ensures r.Ok? <==> open && Fits(Frame(1, Utf8(DATA_TYPE), payload, ticks))
      ensures frames == if r.Ok? then old(frames) + [Frame(1, Utf8(DATA_TYPE), payload, ticks)] else old(frames)
    {
      r := WritePacket(Utf8(DATA_TYPE), payload, Some(dataInterfaceId), ticks);
    }

    method Close()
      requires Valid()
      modifies this`open
      ensures Valid() && !open
    {
      open := false;
    }

    /** `bytes_written`: the file's size on disk once closed, the counter while open. */
    method BytesWritten() returns (n: nat)
      requires Valid()
      ensures n == |file| == HEADER_SIZE + TotalCost(frames)
    {
      n := if open then bytesWritten else |file|;
      FileSize(frames);
    }
  }

  lemma EncodeFiveOptions(os: seq<TypedOption>)
    requires |os| == 5
    ensures EncodeOptions(os)
         == EncodeOption(os[0]) + EncodeOption(os[1]) + EncodeOption(os[2]) + EncodeOption(os[3]) + EncodeOption(os[4]) + EndOfOptions()
  {
    hide EncodeOption, EndOfOptions;
    assert EncodeOptions(os) == EncodeOption(os[0]) + EncodeOptions(os[1..]);
    assert EncodeOptions(os[1..]) == EncodeOption(os[1]) + EncodeOptions(os[2..]) by { assert os[1..][1..] == os[2..]; }
    assert EncodeOptions(os[2..]) == EncodeOption(os[2]) + EncodeOptions(os[3..]) by { assert os[2..][1..] == os[3..]; }
    assert EncodeOptions(os[3..]) == EncodeOption(os[3]) + EncodeOptions(os[4..]) by { assert os[3..][1..] == os[4..]; }
    assert EncodeOptions(os[4..]) == EncodeOption(os[4]) + EndOfOptions() by { assert os[4..][1..] == []; }
  }

  lemma PacketBodyParts(f: Frame)
    ensures var head := PacketHead(FieldsOf(f)) + Padded(f.payload);
            PacketBody(f) == (if f.messageType == [] then head else head + EncodeOption(CommentOption(f))) + EndOfOptions()
  {
    hide PacketHead, Padded, EncodeOption, EndOfOptions, CommentOption;
    OneOption(CommentOption(f));
  }

  lemma AppendFrame(fs: seq<Frame>, f: Frame)
    ensures FileBlocks(fs + [f]) == FileBlocks(fs) + [PacketBlock(f)]
  {
    hide HeaderBlocks;
    assert (fs + [f])[..|fs + [f]| - 1] == fs;
  }
}
