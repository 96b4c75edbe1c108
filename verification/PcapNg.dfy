/** The pcapng format: byte-level encoding as the writer emits it, and an independent reader that
    follows draft-ietf-opsawg-pcapng (sections 3.1, 3.5, 4.1, 4.2 and 4.3). The reader is written
    from the format alone; nothing in it refers to the encoder. */
module PcapNg {
  import opened Prelude

  type Byte = b: int | 0 <= b < 256

  const SECTION_HEADER_BLOCK := 0x0A0D0D0A
  const INTERFACE_DESCRIPTION_BLOCK := 0x00000001
  const ENHANCED_PACKET_BLOCK := 0x00000006
  const BYTE_ORDER_MAGIC := 0x1A2B3C4D
  const VERSION_MAJOR := 1
  const VERSION_MINOR := 0
  const SNAPLEN := 0xFFFF
  const LINKTYPE := 162
  const IF_NAME := 2
  const IF_DESCRIPTION := 3
  const IF_TSRESOL := 9
  const IF_FILTER := 11
  const IF_PROTOCOLS := 19
  const EPB_COMMENT := 1
  const WORD := 0x1_0000_0000
  const HALF := 0x1_0000

  // ---------------------------------------------------------------- integers

  /** `struct.pack` of an unsigned integer in `w` bytes, least significant first. */
  function LittleEndian(n: nat, w: nat): (s: seq<Byte>)
    ensures |s| == w
  {
    if w == 0 then [] else [n % 256] + LittleEndian(n / 256, w - 1)
  }

  function U16(n: nat): (s: seq<Byte>)
    ensures |s| == 2
  {
    LittleEndian(n, 2)
  }

  function U32(n: nat): (s: seq<Byte>)
    ensures |s| == 4
  {
    LittleEndian(n, 4)
  }

  function Unsigned(s: seq<Byte>): nat {
    if s == [] then 0 else s[0] + 256 * Unsigned(s[1..])
  }

  function Pow256(w: nat): nat {
    if w == 0 then 1 else 256 * Pow256(w - 1)
  }

  /** Reads a `w`-byte unsigned integer off the front. */
  function ReadUint(s: seq<Byte>, w: nat): (r: Option<(nat, seq<Byte>)>)
    ensures r.Some? ==> |r.value.1| == |s| - w
  {
    if |s| < w then None else Some((Unsigned(s[..w]), s[w..]))
  }

  lemma {:induction false} UnsignedLittleEndian(n: nat, w: nat)
    requires n < Pow256(w)
    ensures Unsigned(LittleEndian(n, w)) == n
  {
    if w > 0 {
      UnsignedLittleEndian(n / 256, w - 1);
      assert LittleEndian(n, w)[1..] == LittleEndian(n / 256, w - 1);
    }
  }

  lemma ReadWritten(n: nat, w: nat, rest: seq<Byte>)
    requires n < Pow256(w)
    ensures ReadUint(LittleEndian(n, w) + rest, w) == Some((n, rest))
  {
    UnsignedLittleEndian(n, w);
    assert (LittleEndian(n, w) + rest)[..w] == LittleEndian(n, w);
    assert (LittleEndian(n, w) + rest)[w..] == rest;
  }

  lemma ReadU16(n: nat, rest: seq<Byte>)
    requires n < HALF
    ensures ReadUint(U16(n) + rest, 2) == Some((n, rest))
  {
    assert Pow256(2) == HALF by { assert Pow256(1) == 256; }
    ReadWritten(n, 2, rest);
  }

  lemma ReadU32(n: nat, rest: seq<Byte>)
    requires n < WORD
    ensures ReadUint(U32(n) + rest, 4) == Some((n, rest))
  {
    assert Pow256(4) == WORD by { assert Pow256(1) == 256; assert Pow256(2) == HALF; assert Pow256(3) == 0x100_0000; }
    ReadWritten(n, 4, rest);
  }

  // ---------------------------------------------------------------- options

  function Pad4(n: nat): (p: nat)
    ensures n <= p < n + 4 && p % 4 == 0
  {
    (n + 3) / 4 * 4
  }

  function Zeros(n: nat): (s: seq<Byte>)
    ensures |s| == n
  {
    seq(n, _ => 0)
  }

  function Padded(s: seq<Byte>): (p: seq<Byte>)
    ensures |p| == Pad4(|s|) && p[..|s|] == s
  {
    s + Zeros(Pad4(|s|) - |s|)
  }

  datatype TypedOption = TypedOption(code: nat, value: seq<Byte>) {
    /** What `struct.pack("<HH", code, length)` accepts, leaving code 0 for the end marker. */
    predicate Encodable() {
      0 < code < HALF && |value| < HALF
    }
  }

  function EncodeOption(o: TypedOption): (s: seq<Byte>)
    ensures |s| == 4 + Pad4(|o.value|)
  {
    U16(o.code) + U16(|o.value|) + Padded(o.value)
  }

  function EndOfOptions(): (s: seq<Byte>)
    ensures |s| == 4
  {
    U16(0) + U16(0)
  }

  function EncodeOptions(os: seq<TypedOption>): seq<Byte> {
    if os == [] then EndOfOptions() else EncodeOption(os[0]) + EncodeOptions(os[1..])
  }

  /** Section 3.5: a list of typed options, closed by an empty option of code 0 or by the end of
      the block. */
  function ReadOptions(s: seq<Byte>): Option<seq<TypedOption>>
    decreases |s|
  {
    if s == [] then Some([])
    else
      var (code, s1) :- ReadUint(s, 2);
      var (length, s2) :- ReadUint(s1, 2);
      if code == 0 then
        if length == 0 && s2 == [] then Some([]) else None
      else if |s2| < Pad4(length) then None
      else
        var tail :- ReadOptions(s2[Pad4(length)..]);
        Some([TypedOption(code, s2[..length])] + tail)
  }

  /** One step of the reader. */
  lemma ReadOneOption(s: seq<Byte>, s1: seq<Byte>, s2: seq<Byte>, code: nat, length: nat)
    requires ReadUint(s, 2) == Some((code, s1)) && ReadUint(s1, 2) == Some((length, s2))
    requires code != 0 && |s2| >= Pad4(length) && ReadOptions(s2[Pad4(length)..]).Some?
    ensures ReadOptions(s) == Some([TypedOption(code, s2[..length])] + ReadOptions(s2[Pad4(length)..]).value)
  {
    hide ReadUint, Pad4, U16;
    assert |s1| == |s| - 2 && |s2| == |s1| - 2;
  }

  lemma ReadWrittenOption(o: TypedOption, rest: seq<Byte>)
    requires o.Encodable() && ReadOptions(rest).Some?
    ensures ReadOptions(EncodeOption(o) + rest) == Some([o] + ReadOptions(rest).value)
  {
    hide U16, ReadUint, Pad4, ReadOptions, Padded;
    var body := Padded(o.value) + rest;
    var s := EncodeOption(o) + rest;
    assert s == U16(o.code) + (U16(|o.value|) + body);
    ReadU16(o.code, U16(|o.value|) + body);
    ReadU16(|o.value|, body);
    assert body[Pad4(|o.value|)..] == rest;
    assert body[..|o.value|] == o.value;
    ReadOneOption(s, U16(|o.value|) + body, body, o.code, |o.value|);
  }

  ghost predicate AllEncodable(os: seq<TypedOption>) {
    forall i | 0 <= i < |os| :: os[i].Encodable()
  }

  lemma ReadEndOfOptions()
    ensures ReadOptions(EndOfOptions()) == Some([])
  {
    hide U16, LittleEndian, Unsigned, ReadUint, Pad4;
    ReadU16(0, U16(0));
    ReadU16(0, []);
    assert U16(0) + [] == U16(0);
  }

  lemma {:induction false} ReadWrittenOptions(os: seq<TypedOption>)
    requires AllEncodable(os)
    ensures ReadOptions(EncodeOptions(os)) == Some(os)
    ensures |EncodeOptions(os)| % 4 == 0
  {
    hide ReadOptions, EncodeOption, EndOfOptions;
    if os == [] {
      ReadEndOfOptions();
    } else {
      ReadWrittenOptions(os[1..]);
      ReadWrittenOption(os[0], EncodeOptions(os[1..]));
      assert [os[0]] + os[1..] == os;
    }
  }

  // ---------------------------------------------------------------- blocks

  datatype Block = Block(kind: nat, body: seq<Byte>) {
    function Length(): nat {
      12 + |body|
    }

    predicate Encodable() {
      kind < WORD && Length() < WORD && |body| % 4 == 0
    }
  }

  function EncodeBlock(b: Block): (s: seq<Byte>)
    ensures |s| == b.Length()
  {
    U32(b.kind) + U32(b.Length()) + b.body + U32(b.Length())
  }

  function EncodeBlocks(bs: seq<Block>): seq<Byte> {
    if bs == [] then [] else EncodeBlocks(bs[..|bs| - 1]) + EncodeBlock(bs[|bs| - 1])
  }

  ghost predicate Writable(bs: seq<Block>) {
    forall i | 0 <= i < |bs| :: bs[i].Encodable()
  }

  /** Section 3.1: one block off the front; the length must be repeated after the body. */
  function ReadBlock(s: seq<Byte>): (r: Option<(Block, seq<Byte>)>)
    ensures r.Some? ==> |r.value.1| < |s|
  {
    var (kind, s1) :- ReadUint(s, 4);
    var (length, s2) :- ReadUint(s1, 4);
    if length < 12 || length % 4 != 0 || |s2| < length - 8 then None
    else
      var (copy, rest) :- ReadUint(s2[length - 12..], 4);
      if copy != length then None else Some((Block(kind, s2[..length - 12]), rest))
  }

  /** All blocks, reading forwards from the start of the file. */
  function ReadBlocks(s: seq<Byte>): Option<seq<Block>>
    decreases |s|
  {
    if s == [] then Some([])
    else
      var (b, rest) :- ReadBlock(s);
      var bs :- ReadBlocks(rest);
      Some([b] + bs)
  }

  /** All blocks, reading backwards from the end of the file by the trailing length copies. */
  function ReadBlocksBackward(s: seq<Byte>): Option<seq<Block>>
    decreases |s|
  {
    if s == [] then Some([])
    else if |s| < 4 then None
    else
      var length := Unsigned(s[|s| - 4..]);
      if length < 12 || length > |s| then None
      else
        var (b, rest) :- ReadBlock(s[|s| - length..]);
        if rest != [] then None
        else
          var bs :- ReadBlocksBackward(s[..|s| - length]);
          Some(bs + [b])
  }

  lemma ReadWrittenBlock(b: Block, rest: seq<Byte>)
    requires b.Encodable()
    ensures ReadBlock(EncodeBlock(b) + rest) == Some((b, rest))
  {
    var n := b.Length();
    var s2 := b.body + (U32(n) + rest);
    assert EncodeBlock(b) + rest == U32(b.kind) + (U32(n) + s2);
    hide EncodeBlock, U32, LittleEndian, ReadUint;
    ReadU32(b.kind, U32(n) + s2);
    ReadU32(n, s2);
    assert s2[n - 12..] == U32(n) + rest;
    ReadU32(n, rest);
    assert s2[..n - 12] == b.body;
  }

  lemma {:induction false} EncodeBlocksFirst(bs: seq<Block>)
    requires bs != []
    ensures EncodeBlocks(bs) == EncodeBlock(bs[0]) + EncodeBlocks(bs[1..])
  {
    hide EncodeBlock;
    var init, last := bs[..|bs| - 1], bs[|bs| - 1];
    if |bs| > 1 {
      EncodeBlocksFirst(init);
      assert init[0] == bs[0] && init[1..] == bs[1..][..|bs| - 2];
      assert bs[1..][|bs| - 2] == last;
      assert EncodeBlocks(bs[1..]) == EncodeBlocks(init[1..]) + EncodeBlock(last);
      hide EncodeBlocks;
    } else {
      assert init == [] && bs[1..] == [];
    }
  }

  /** The whole file read forwards gives back the blocks written. */
  lemma {:induction false} ReadWrittenBlocks(bs: seq<Block>)
    requires Writable(bs)
    ensures ReadBlocks(EncodeBlocks(bs)) == Some(bs)
  {
    if bs != [] {
      EncodeBlocksFirst(bs);
      ReadWrittenBlock(bs[0], EncodeBlocks(bs[1..]));
      ReadWrittenBlocks(bs[1..]);
      assert [bs[0]] + bs[1..] == bs;
    }
  }

  lemma TrailingLength(prefix: seq<Byte>, b: Block)
    requires b.Encodable()
    ensures var s := prefix + EncodeBlock(b);
            |s| >= 12 && Unsigned(s[|s| - 4..]) == b.Length()
  {
    hide LittleEndian, Unsigned;
    var n := b.Length();
    var s := prefix + EncodeBlock(b);
    assert s[|s| - 4..] == U32(n);
    ReadU32(n, []);
    assert U32(n) + [] == U32(n) && U32(n)[..4] == U32(n);
  }

  lemma ReadLastBlock(prefix: seq<Byte>, b: Block)
    requires b.Encodable() && ReadBlocksBackward(prefix).Some?
    ensures ReadBlocksBackward(prefix + EncodeBlock(b)) == Some(ReadBlocksBackward(prefix).value + [b])
  {
    hide EncodeBlock, ReadBlock, Unsigned, Block.Encodable;
    var n := b.Length();
    var s := prefix + EncodeBlock(b);
    TrailingLength(prefix, b);
    ReadWrittenBlock(b, []);
    assert s[|s| - n..] == EncodeBlock(b) == EncodeBlock(b) + [];
    assert s[..|s| - n] == prefix;
  }

  /** The whole file read backwards gives back the same blocks, so the walk ends at offset 0. */
  lemma {:induction false} ReadWrittenBlocksBackward(bs: seq<Block>)
    requires Writable(bs)
    ensures ReadBlocksBackward(EncodeBlocks(bs)) == Some(bs)
  {
    hide ReadBlock, EncodeBlock, Unsigned;
    if bs != [] {
      var init, last := bs[..|bs| - 1], bs[|bs| - 1];
      ReadWrittenBlocksBackward(init);
      ReadLastBlock(EncodeBlocks(init), last);
      assert init + [last] == bs;
    }
  }

  /** A file cut at any byte: every block that ends at or before the cut is still read, and
      nothing else. `Complete` is the reader that stops at the first incomplete block. */
  function Complete(s: seq<Byte>): seq<Block>
    decreases |s|
  {
    match ReadBlock(s)
    case None => []
    case Some((b, rest)) => [b] + Complete(rest)
  }

  lemma CutBlockUnreadable(b: Block, k: nat)
    requires b.Encodable() && k < b.Length()
    ensures ReadBlock(EncodeBlock(b)[..k]) == None
  {
    var s := EncodeBlock(b);
    if k >= 8 {
      var n := b.Length();
      assert s == U32(b.kind) + (U32(n) + (b.body + U32(n)));
      var cut := (b.body + U32(n))[..k - 8];
      assert s[..k] == U32(b.kind) + (U32(n) + cut);
      ReadU32(b.kind, U32(n) + cut);
      ReadU32(n, cut);
    }
  }

  lemma {:induction false} CompleteThenCut(bs: seq<Block>, cut: seq<Byte>)
    requires Writable(bs)
    requires ReadBlock(cut) == None
    ensures Complete(EncodeBlocks(bs) + cut) == bs
  {
    if bs == [] {
      assert EncodeBlocks(bs) + cut == cut;
    } else {
      var rest := EncodeBlocks(bs[1..]) + cut;
      EncodeBlocksFirst(bs);
      assert EncodeBlocks(bs) + cut == EncodeBlock(bs[0]) + rest;
      ReadWrittenBlock(bs[0], rest);
      CompleteThenCut(bs[1..], cut);
    }
  }

  /** `c` is all of `bs` that ends at or before byte `k`. */
  ghost predicate WholeBlocksUpTo(c: seq<Block>, bs: seq<Block>, k: nat) {
    && c <= bs
    && |EncodeBlocks(c)| <= k
    && (c != bs ==> k < |EncodeBlocks(bs[..|c| + 1])|)
  }

  /** Cut the file at any byte: exactly the blocks that end at or before the cut are read. */
  lemma {:induction false} CutFile(bs: seq<Block>, k: nat)
    requires Writable(bs)
    requires k <= |EncodeBlocks(bs)|
    ensures WholeBlocksUpTo(Complete(EncodeBlocks(bs)[..k]), bs, k)
  {
    hide ReadBlock, EncodeBlock, Complete, Block.Encodable;
    if k == |EncodeBlocks(bs)| {
      CompleteThenCut(bs, []);
      assert EncodeBlocks(bs) + [] == EncodeBlocks(bs)[..k];
    } else {
      var init, last := bs[..|bs| - 1], bs[|bs| - 1];
      var start := |EncodeBlocks(init)|;
      if k < start {
        CutFile(init, k);
        assert EncodeBlocks(bs)[..k] == EncodeBlocks(init)[..k];
        var c := Complete(EncodeBlocks(init)[..k]);
        assert c != init;
        assert bs[..|c| + 1] == init[..|c| + 1];
      } else {
        CutBlockUnreadable(last, k - start);
        CompleteThenCut(init, EncodeBlock(last)[..k - start]);
        assert EncodeBlocks(bs)[..k] == EncodeBlocks(init) + EncodeBlock(last)[..k - start];
        assert bs[..|init| + 1] == bs;
      }
    }
  }

  // ---------------------------------------------------------------- captures

  datatype Section = Section(major: nat, minor: nat, length: Option<nat>)

  datatype Interface = Interface(linkType: nat, snapLen: nat, options: seq<TypedOption>)

  /** A packet as read back; `link` is the description its interface id resolves to, if any. */
  datatype Packet = Packet(interfaceId: nat, link: Option<Interface>, ticks: nat, originalLength: nat,
                           data: seq<Byte>, options: seq<TypedOption>)

  datatype Capture = Capture(section: Section, interfaces: seq<Interface>, packets: seq<Packet>)

  /** Section 4.1. An all-ones section length means "not specified". */
  function ReadSection(body: seq<Byte>): Option<Section> {
    var (magic, s1) :- ReadUint(body, 4);
    var (major, s2) :- ReadUint(s1, 2);
    var (minor, s3) :- ReadUint(s2, 2);
    var (low, s4) :- ReadUint(s3, 4);
    var (high, s5) :- ReadUint(s4, 4);
    var options :- ReadOptions(s5);
    if magic != BYTE_ORDER_MAGIC || major != 1 then None
    else
      var length := high * WORD + low;
      Some(Section(major, minor, if length == WORD * WORD - 1 then None else Some(length)))
  }

  /** Section 4.2. */
  function ReadInterface(body: seq<Byte>): Option<Interface> {
    var (linkType, s1) :- ReadUint(body, 2);
    var (reserved, s2) :- ReadUint(s1, 2);
    var (snapLen, s3) :- ReadUint(s2, 4);
    var options :- ReadOptions(s3);
    Some(Interface(linkType, snapLen, options))
  }

  datatype PacketFields = PacketFields(interfaceId: nat, high: nat, low: nat, captured: nat, original: nat)

  function ReadPacketFields(body: seq<Byte>): Option<(PacketFields, seq<Byte>)> {
    var (id, s1) :- ReadUint(body, 4);
    var (high, s2) :- ReadUint(s1, 4);
    var (low, s3) :- ReadUint(s2, 4);
    var (captured, s4) :- ReadUint(s3, 4);
    var (original, s5) :- ReadUint(s4, 4);
    Some((PacketFields(id, high, low, captured, original), s5))
  }

  /** Section 4.3: the timestamp is one 64-bit count split into a high and a low word. */
  function ReadPacket(body: seq<Byte>, interfaces: seq<Interface>): Option<Packet> {
    var (h, rest) :- ReadPacketFields(body);
    if |rest| < Pad4(h.captured) then None
    else
      var options :- ReadOptions(rest[Pad4(h.captured)..]);
      var link := if h.interfaceId < |interfaces| then Some(interfaces[h.interfaceId]) else None;
      Some(Packet(h.interfaceId, link, h.high * WORD + h.low, h.original, rest[..h.captured], options))
  }

  /** One block on top of what has been read so far; unknown block types are skipped. */
  function Extend(c: Capture, b: Block): Option<Capture> {
    if b.kind == INTERFACE_DESCRIPTION_BLOCK then
      var i :- ReadInterface(b.body);
      Some(c.(interfaces := c.interfaces + [i]))
    else if b.kind == ENHANCED_PACKET_BLOCK then
      var p :- ReadPacket(b.body, c.interfaces);
      Some(c.(packets := c.packets + [p]))
    else if b.kind == SECTION_HEADER_BLOCK then None
    else Some(c)
  }

  /** A single-section capture: a section header, then interface descriptions and packets. */
  function Decode(bs: seq<Block>): Option<Capture> {
    if bs == [] then None
    else if |bs| == 1 then
      if bs[0].kind != SECTION_HEADER_BLOCK then None
      else
        var section :- ReadSection(bs[0].body);
        Some(Capture(section, [], []))
    else
      var c :- Decode(bs[..|bs| - 1]);
      Extend(c, bs[|bs| - 1])
  }

  /** The whole reader, from bytes to a capture. */
  function ReadFile(s: seq<Byte>): Option<Capture> {
    var bs :- ReadBlocks(s);
    Decode(bs)
  }

  /** Section 4.3 also asks that the interface be described and that no more than its snapshot length
      be captured; section 4.2 lets 0 mean that there is no such length. */
  predicate Conforms(p: Packet) {
    p.link.Some? && (p.link.value.snapLen == 0 || |p.data| <= p.link.value.snapLen)
  }

  /** The reader that rejects a file with any packet breaking those two rules. */
  function ReadConforming(s: seq<Byte>): Option<Capture> {
    var c :- ReadFile(s);
    if forall p | p in c.packets :: Conforms(p) then Some(c) else None
  }

  /** The value of the first option with the given code. */
  function ValueOf(os: seq<TypedOption>, code: nat): Option<seq<Byte>> {
    if os == [] then None else if os[0].code == code then Some(os[0].value) else ValueOf(os[1..], code)
  }

  /** What a dissector takes for the message type of a packet: the rest of the first comment that
      starts with the five bytes of `type=`. */
  function MessageTypeOf(p: Packet): Option<seq<Byte>> {
    TypeIn(p.options)
  }

  function TypeIn(os: seq<TypedOption>): Option<seq<Byte>> {
    if os == [] then None
    else if os[0].code == 1 && |os[0].value| >= 5 && os[0].value[..5] == [116, 121, 112, 101, 61] then Some(os[0].value[5..])
    else TypeIn(os[1..])
  }
}
