/** pcapng captures (tools/verify_pcap.py, read_pcapng). */
module Pcapng {
  import opened Arithmetic
  import opened Bits
  import opened BlockWalk
  import opened Bytes
  import opened Capture
  import opened LinkLayer
  import opened Wrappers

  const SECTION_HEADER := 0x0A0D0D0A
  const INTERFACE_DESCRIPTION := 1
  const ENHANCED_PACKET := 6
  const LITTLE_ENDIAN_MAGIC := 0x4D3C2B1A

  datatype Interface = Interface(linktype: int, tsresol: byte)

  /** What the blocks of a section are read under. */
  datatype Section = Section(endian: Endian, interfaces: seq<Interface>)

  const START := Section(Little, [])

  // ----- One block

  function Pow10(k: nat): (p: nat)
    ensures p > 0
  {
    if k == 0 then 1 else 10 * Pow10(k - 1)
  }

  lemma {:induction false} ShiftedOneIsPositive(k: nat)
    ensures Pow2(k) > 0
  {
    if k != 0 { ShiftedOneIsPositive(k - 1); }
  }

  /** Nanoseconds of a raw timestamp: a power-of-two resolution if the top bit is set, else a power of ten. */
  function TsNs(tsresol: byte, raw: nat): int {
    if tsresol >= 128 then
      ShiftedOneIsPositive(tsresol % 128);
      raw * 1_000_000_000 / Pow2(tsresol % 128)
    else if tsresol <= 9 then raw * Pow10(9 - tsresol)
    else raw / Pow10(tsresol - 9)
  }

  lemma {:induction false} Pow10Sum(j: nat, k: nat)
    ensures Pow10(j + k) == Pow10(j) * Pow10(k)
  {
    if j != 0 { Pow10Sum(j - 1, k); }
  }

  lemma CoarseRoundsDown(tsresol: byte, raw: nat)
    requires tsresol <= 9
    ensures raw * Pow10(9 - tsresol) == raw * 1_000_000_000 / Pow10(tsresol)
  {
    var more, units := Pow10(9 - tsresol), Pow10(tsresol);
    assert Pow10(9) == 1_000_000_000;
    Pow10Sum(9 - tsresol, tsresol);
    MulRegroup(raw, more, units);
    assert units * more == more * units;
    QuotientIs(raw * 1_000_000_000, units, raw * more);
  }

  lemma FineRoundsDown(tsresol: nat, raw: nat)
    requires tsresol > 9
    ensures raw / Pow10(tsresol - 9) == raw * 1_000_000_000 / Pow10(tsresol)
  {
    assert Pow10(9) == 1_000_000_000;
    Pow10Sum(9, tsresol - 9);
    CancelFactor(raw, 1_000_000_000, Pow10(tsresol - 9));
  }

  /** A second has 2^(r - 128) or 10^r units, and the nanoseconds are the exact time rounded down. */
  lemma TimestampRoundsDown(tsresol: byte, raw: nat)
    ensures tsresol < 128 ==> TsNs(tsresol, raw) == raw * 1_000_000_000 / Pow10(tsresol)
    ensures tsresol >= 128 ==> Pow2(tsresol - 128) > 0 && TsNs(tsresol, raw) == raw * 1_000_000_000 / Pow2(tsresol - 128)
  {
    if tsresol >= 128 {
      ShiftedOneIsPositive(tsresol - 128);
    } else if tsresol <= 9 {
      CoarseRoundsDown(tsresol, raw);
    } else {
      FineRoundsDown(tsresol, raw);
    }
  }

  /** The if_tsresol option (code 9) among the options from opos on. */
  function TsResol(e: Endian, body: Bytes, opos: nat, current: byte): Result<byte, CaptureError>
    decreases |body| - opos
  {
    if opos + 4 > |body| then Success(current)
    else
      var code, olen := U16(e, body, opos), U16(e, body, opos + 2);
      var next := opos + 4 + (olen + 3) / 4 * 4;
      if code == 0 then Success(current)
      else if code == 9 && olen >= 1 then
        if opos + 4 < |body| then TsResol(e, body, next, body[opos + 4]) else Failure(IndexError)
      else TsResol(e, body, next, current)
  }

  function PacketFrame(section: Section, body: Bytes): Frame
    requires |body| >= 20
  {
    var e, interfaces := section.endian, section.interfaces;
    var id := U32(e, body, 0);
    var i := if id < |interfaces| then interfaces[id] else Interface(LINKTYPE_ETHERNET, 6);
    Frame(i.linktype, TsNs(i.tsresol, U32(e, body, 4) * 0x1_0000_0000 + U32(e, body, 8)),
          Slice(body, 20, 20 + U32(e, body, 12)))
  }

  /** The section after one block, and the frames the block holds. */
  function BlockStep(section: Section, kind: nat, body: Bytes, length: nat): Step<Section> {
    if kind == INTERFACE_DESCRIPTION then
      if |body| < 2 then Broken(StructError)
      else match TsResol(section.endian, body, 8, 6)
        case Failure(error) => Broken(error)
        case Success(tsresol) =>
          var i := Interface(U16(section.endian, body, 0), tsresol);
          Next(section.(interfaces := section.interfaces + [i]), [], length)
    else if kind == ENHANCED_PACKET then
      if |body| < 20 then Broken(StructError) else Next(section, [PacketFrame(section, body)], length)
    else Next(section, [], length)
  }

  /** A section header starts a fresh section in the byte order of its magic. */
  function EnterBlock(section: Section, kind: nat, magic: nat): Section {
    if kind != SECTION_HEADER then section
    else Section(if magic == LITTLE_ENDIAN_MAGIC then Little else Big, [])
  }

  datatype Head = Head(section: Section, kind: nat, length: nat)

  /** The block at the front of the data, if it is at least 12 bytes long and the data holds all of it. */
  function HeadOf(section: Section, d: Bytes): (r: Option<Head>)
    ensures r.Some? ==> 12 <= r.value.length <= |d|
  {
    if |d| < 12 then None
    else
      var kind := U32(section.endian, d, 0);
      var inside := EnterBlock(section, kind, U32(Big, d, 8));
      var length := U32(inside.endian, d, 4);
      if length < 12 || length > |d| then None else Some(Head(inside, kind, length))
  }

  function Block(section: Section, d: Bytes): Step<Section> {
    match HeadOf(section, d)
    case None => Stop
    case Some(h) => BlockStep(h.section, h.kind, d[8..h.length - 4], h.length)
  }

  lemma HeadIgnoresWhatFollows(section: Section, d: Bytes, rest: Bytes)
    requires HeadOf(section, d).Some?
    ensures HeadOf(section, d + rest) == HeadOf(section, d)
  {
    var inside := HeadOf(section, d).value.section;
    U32Before(section.endian, d, rest, 0);
    U32Before(inside.endian, d, rest, 4);
    U32Before(Big, d, rest, 8);
  }

  lemma BlockWithRest(section: Section, d: Bytes, rest: Bytes)
    requires HeadOf(section, d).Some?
    ensures Block(section, d + rest) == Block(section, d)
  {
    HeadIgnoresWhatFollows(section, d, rest);
    var length := HeadOf(section, d).value.length;
    assert (d + rest)[8..length - 4] == d[8..length - 4];
  }

  /** Both walks end: each block takes at least 12 bytes, and reads the same whatever follows it. */
  lemma BlocksAreBlocks()
    ensures Progresses(Block) && IgnoresWhatFollows(Block)
    ensures forall section :: Block(section, []).Stop?
  {
    forall section, d: Bytes, rest: Bytes | !Block(section, d).Stop?
      ensures Block(section, d + rest) == Block(section, d)
    {
      BlockWithRest(section, d, rest);
    }
  }

  ghost function Parsed(data: Bytes): Result<seq<Packet>, CaptureError> {
    BlocksAreBlocks();
    Read(Block, START, data)
  }

  // ----- Concatenation and truncation

  predicate StartsSection(data: Bytes) {
    |data| < 12 || data[..4] == [0x0A, 0x0D, 0x0D, 0x0A]
  }

  /** The section header type reads the same in either byte order, so the section before it is forgotten. */
  lemma SectionHeaderResets(data: Bytes)
    requires StartsSection(data)
    ensures ResetsState(Block, data)
  {
    forall s, t ensures Block(s, data) == Block(t, data) {
      if |data| >= 12 {
        assert data[0] == data[..4][0] && data[1] == data[..4][1] && data[2] == data[..4][2] && data[3] == data[..4][3];
        assert U32(s.endian, data, 0) == SECTION_HEADER == U32(t.endian, data, 0);
        assert HeadOf(s, data) == HeadOf(t, data);
      }
    }
  }

  ghost predicate WholeCapture(data: Bytes) {
    BlocksAreBlocks();
    WholeBlocks(Block, START, data)
  }

  /**
  Reading is compositional: a whole number of blocks followed by any section reads as the two
  parts read apart, even when their byte orders differ, and fails exactly when the first failing part does.
  */
  lemma ConcatenationReadsInParts(s1: Bytes, s2: Bytes)
    requires WholeCapture(s1) && StartsSection(s2)
    ensures Parsed(s1 + s2) == Then(Parsed(s1), Parsed(s2))
  {
    BlocksAreBlocks();
    SectionHeaderResets(s2);
    ReadInParts(Block, START, START, s1, s2);
  }

  /** Any truncation of a capture that reads without error reads to a prefix of it. */
  lemma TruncationParsesToPrefix(data: Bytes, k: nat)
    requires k <= |data| && Parsed(data).Success?
    ensures Parsed(data[..k]).Success? && Parsed(data[..k]).value <= Parsed(data).value
  {
    BlocksAreBlocks();
    ReadOfTruncation(Block, START, data, k);
  }

  // ----- The reader

  /** The option loop of an interface description. */
  method ReadOptions(e: Endian, body: Bytes) returns (r: Result<byte, CaptureError>)
    ensures r == TsResol(e, body, 8, 6)
  {
    var tsresol: byte, opos := 6, 8;
    while opos + 4 <= |body|
      invariant TsResol(e, body, opos, tsresol) == TsResol(e, body, 8, 6)
      decreases |body| - opos
    {
      var code, olen := U16(e, body, opos), U16(e, body, opos + 2);
      if code == 0 { break; }
      var val := Slice(body, opos + 4, opos + 4 + olen);
      if code == 9 && olen >= 1 {
        if val == [] { return Failure(IndexError); }
        tsresol := val[0];
      }
      opos := opos + 4 + (olen + 3) / 4 * 4;
    }
    r := Success(tsresol);
  }

  /** The block type, the section switch and the length check. */
  method ReadHead(section: Section, data: Bytes, pos: nat) returns (r: Option<Head>)
    requires pos + 12 <= |data|
    ensures r == HeadOf(section, data[pos..])
  {
    forall e ensures U32(e, data[pos..], 0) == U32(e, data, pos) && U32(e, data[pos..], 4) == U32(e, data, pos + 4)
                  && U32(e, data[pos..], 8) == U32(e, data, pos + 8)
    {}
    var inside, kind := section, U32(section.endian, data, pos);
    if kind == SECTION_HEADER {
      var bom := U32(Big, data, pos + 8);
      inside := Section(if bom == LITTLE_ENDIAN_MAGIC then Little else Big, []);
    }
    var length := U32(inside.endian, data, pos + 4);
    if length < 12 || pos + length > |data| { return None; }
    r := Some(Head(inside, kind, length));
  }

  method ReadBody(section: Section, kind: nat, body: Bytes, length: nat) returns (r: Step<Section>)
    ensures r == BlockStep(section, kind, body, length)
    ensures r.Broken? || (r.Next? && |r.frames| <= 1 && r.length == length)
  {
    if kind == INTERFACE_DESCRIPTION {
      if |body| < 2 { return Broken(StructError); }
      var linktype := U16(section.endian, body, 0);
      var tsresol := ReadOptions(section.endian, body);
      if tsresol.Failure? { return Broken(tsresol.error); }
      r := Next(section.(interfaces := section.interfaces + [Interface(linktype, tsresol.value)]), [], length);
    } else if kind == ENHANCED_PACKET {
      if |body| < 20 { return Broken(StructError); }
      r := Next(section, [PacketFrame(section, body)], length);
    } else {
      r := Next(section, [], length);
    }
  }

  /** One round of the block loop; Stop where it breaks. */
  method ReadBlock(section: Section, data: Bytes, pos: nat) returns (r: Step<Section>)
    requires pos + 12 <= |data|
    ensures r == Block(section, data[pos..])
    ensures r.Next? ==> |r.frames| <= 1 && 0 < r.length <= |data| - pos
  {
    var head := ReadHead(section, data, pos);
    if head.None? { return Stop; }
    var h := head.value;
    assert data[pos..][8..h.length - 4] == data[pos + 8..pos + h.length - 4];
    r := ReadBody(h.section, h.kind, data[pos + 8..pos + h.length - 4], h.length);
  }

  method ReadPcapng(data: Bytes) returns (r: Result<seq<Packet>, CaptureError>)
    ensures r == Parsed(data)
  {
    BlocksAreBlocks();
    ReadStart(Block, START, data);
    var out: seq<Packet>, pos, section := [], 0, START;
    ghost var rest, all := data, Parsed(data);
    while pos + 12 <= |data|
      invariant pos <= |data| && rest == data[pos..]
      invariant Reading(Block, section, rest, out, all)
      decreases |data| - pos
    {
      var block := ReadBlock(section, data, pos);
      if !block.Next? {
        ReadEnd(Block, section, rest, out, block, all);
        return if block.Broken? then Failure(block.error) else Success(out);
      }
      ReadNext(Block, section, rest, out, block, all);
      out := AppendPackets(out, block.frames);
      section, pos, rest := block.state, pos + block.length, rest[block.length..];
    }
    ReadEnd(Block, section, rest, out, Stop, all);
    r := Success(out);
  }

  // ----- Encoding

  /** A block in a given byte order: type, length, body, length again. */
  function Wrap(e: Endian, kind: uint32, body: Bytes): Bytes
    requires |body| + 12 < 0x1_0000_0000
  {
    P32(e, kind) + P32(e, |body| + 12) + body + P32(e, |body| + 12)
  }

  /** The magic a reader in byte order e recognises, as stored. */
  function Magic(e: Endian): Bytes {
    if e.Little? then [0x4D, 0x3C, 0x2B, 0x1A] else [0x1A, 0x2B, 0x3C, 0x4D]
  }

  /** An option of an interface: a code, a value, and the padding that aligns it to four bytes. */
  datatype IfOption = IfOption(code: uint16, value: Bytes, padding: Bytes)
  {
    predicate Valid() {
      code != 0 && |value| < 0x1_0000 && |padding| < 4 && (|value| + |padding|) % 4 == 0
    }
  }

  function EncodeOption(e: Endian, o: IfOption): (s: Bytes)
    requires o.Valid()
    ensures |s| == 4 + |o.value| + |o.padding|
  {
    P16(e, o.code) + P16(e, |o.value|) + (o.value + o.padding)
  }

  function OptionsLength(options: seq<IfOption>): nat {
    if options == [] then 0 else 4 + |options[0].value| + |options[0].padding| + OptionsLength(options[1..])
  }

  function EncodeOptions(e: Endian, options: seq<IfOption>): (s: Bytes)
    requires forall o | o in options :: o.Valid()
    ensures |s| == OptionsLength(options)
  {
    if options == [] then [] else EncodeOption(e, options[0]) + EncodeOptions(e, options[1..])
  }

  /** Where the options end: an end mark with anything behind it, or too few bytes for another option. */
  predicate EndsOptions(tail: Bytes) {
    |tail| < 4 || (tail[0] == 0 && tail[1] == 0)
  }

  /** The resolution some options declare: the last if_tsresol (code 9) that has a value counts. */
  function Resolution(options: seq<IfOption>, default: byte): byte {
    if options == [] then default
    else
      var last := options[|options| - 1];
      if last.code == 9 && |last.value| > 0 then last.value[0] else Resolution(options[..|options| - 1], default)
  }

  /** An interface; `reserved` is two reserved bytes and the snap length. A body cut short in them has no options. */
  datatype Description = Description(linktype: uint16, reserved: Bytes, options: seq<IfOption>, tail: Bytes)
  {
    predicate Valid() {
      && (forall o | o in options :: o.Valid()) && EndsOptions(tail)
      && (|reserved| == 6 || (|reserved| < 6 && options == [] && tail == []))
      && 14 + |reserved| + OptionsLength(options) + |tail| < 0x1_0000_0000
    }

    function Body(e: Endian): (s: Bytes)
      requires Valid()
      ensures |s| == 2 + |reserved| + OptionsLength(options) + |tail|
    {
      P16(e, linktype) + reserved + (EncodeOptions(e, options) + tail)
    }

    /** What packets on it are read with: microseconds unless an option says otherwise. */
    function Declares(): Interface {
      Interface(linktype, Resolution(options, 6))
    }
  }

  /** A section header, an interface with its options, a captured packet, or a block the reader skips. */
  datatype Item =
    | NewSection(endian: Endian, rest: Bytes)
    | NewInterface(interface: Description)
    | Captured(id: uint32, tsHigh: uint32, tsLow: uint32, orig: uint32, frame: Bytes, padding: Bytes)
    | Skipped(kind: uint32, body: Bytes)

  predicate Encodable(i: Item) {
    match i
    case NewSection(_, rest) => |rest| + 16 < 0x1_0000_0000
    case NewInterface(d) => d.Valid()
    case Captured(_, _, _, _, frame, padding) => |frame| + |padding| + 32 < 0x1_0000_0000
    case Skipped(kind, body) =>
      |body| + 12 < 0x1_0000_0000 && kind !in {0x0A0D0D0A, 1, 6}
  }

  function PacketBody(e: Endian, id: uint32, tsHigh: uint32, tsLow: uint32, orig: uint32, frame: Bytes, padding: Bytes): Bytes
    requires |frame| < 0x1_0000_0000
  {
    P32(e, id) + P32(e, tsHigh) + P32(e, tsLow) + P32(e, |frame|) + P32(e, orig) + frame + padding
  }

  /** The byte order an item is written in: its section's, or the one it starts. */
  function OrderOf(e: Endian, i: Item): Endian {
    if i.NewSection? then i.endian else e
  }

  function EncodeItem(e: Endian, i: Item): Bytes
    requires Encodable(i)
  {
    match i
    case NewSection(e', rest) => Wrap(e', 0x0A0D0D0A, Magic(e') + rest)
    case NewInterface(d) => Wrap(e, 1, d.Body(e))
    case Captured(id, hi, lo, orig, frame, padding) => Wrap(e, 6, PacketBody(e, id, hi, lo, orig, frame, padding))
    case Skipped(kind, body) => Wrap(e, kind, body)
  }

  function EncodeItems(e: Endian, items: seq<Item>): Bytes
    requires forall i | i in items :: Encodable(i)
    decreases |items|
  {
    if items == [] then [] else EncodeItem(e, items[0]) + EncodeItems(OrderOf(e, items[0]), items[1..])
  }

  /** What the items mean: the section they leave, and the packets they hold. */
  function Entered(section: Section, i: Item): Section {
    match i
    case NewSection(e, _) => Section(e, [])
    case NewInterface(d) => section.(interfaces := section.interfaces + [d.Declares()])
    case _ => section
  }

  function FrameOf(section: Section, i: Item): seq<Frame> {
    match i
    case Captured(id, hi, lo, _, frame, _) =>
      var on := if id < |section.interfaces| then section.interfaces[id] else Interface(1, 6);
      [Frame(on.linktype, TsNs(on.tsresol, hi * 0x1_0000_0000 + lo), frame)]
    case _ => []
  }

  function Contents(section: Section, items: seq<Item>): seq<Packet>
    decreases |items|
  {
    if items == [] then []
    else Packets(FrameOf(section, items[0])) + Contents(Entered(section, items[0]), items[1..])
  }

  lemma SectionHeaderBytes(e: Endian, s: Bytes)
    requires |s| == 4 && U32(e, s, 0) == SECTION_HEADER
    ensures s[0] == 0x0A && s[1] == 0x0D && s[2] == 0x0D && s[3] == 0x0A
  {}

  /** A header whose first two words are known. */
  lemma HeadOfWords(section: Section, kind: Bytes, length: Bytes, tail: Bytes)
    requires |kind| == 4 && |length| == 4 && U32(section.endian, kind, 0) != SECTION_HEADER
    requires 12 <= U32(section.endian, length, 0) <= 8 + |tail|
    ensures HeadOf(section, kind + length + tail)
         == Some(Head(section, U32(section.endian, kind, 0), U32(section.endian, length, 0)))
  {
    var e, d := section.endian, kind + length + tail;
    assert d == [] + kind + (length + tail);
    U32InContext(e, [], kind, length + tail, 0);
    U32InContext(e, kind, length, tail, 0);
  }

  /** An encoded block that does not start a section, with anything behind it. */
  lemma HeadOfWrapped(section: Section, kind: uint32, body: Bytes, rest: Bytes)
    requires |body| + 12 < 0x1_0000_0000 && kind != SECTION_HEADER
    ensures var d := Wrap(section.endian, kind, body) + rest;
      && HeadOf(section, d) == Some(Head(section, kind, |body| + 12))
      && d[8..|body| + 12 - 4] == body
  {
    var k, l := P32(section.endian, kind), P32(section.endian, |body| + 12);
    WrappedParts(k, l, body, rest);
    HeadOfWords(section, k, l, body + l + rest);
  }

  lemma WrappedParts(k: Bytes, l: Bytes, body: Bytes, rest: Bytes)
    requires |k| == 4 && |l| == 4
    ensures k + l + body + l + rest == k + l + (body + l + rest)
    ensures (k + l + body + l + rest)[8..|body| + 12 - 4] == body
  {}

  lemma MagicReads(e: Endian, d: Bytes)
    requires |d| >= 12 && d[8..12] == Magic(e)
    ensures (U32(Big, d, 8) == LITTLE_ENDIAN_MAGIC) == e.Little?
  {
    assert d[8] == d[8..12][0] && d[9] == d[8..12][1] && d[10] == d[8..12][2] && d[11] == d[8..12][3];
  }

  /** A section header whose first three words are known, reached in whatever section. */
  lemma HeadOfSectionWords(section: Section, e: Endian, kind: Bytes, length: Bytes, tail: Bytes)
    requires |kind| == 4 && |length| == 4 && U32(e, kind, 0) == SECTION_HEADER
    requires |tail| >= 4 && tail[..4] == Magic(e) && 12 <= U32(e, length, 0) <= 8 + |tail|
    ensures HeadOf(section, kind + length + tail)
         == Some(Head(Section(e, []), SECTION_HEADER, U32(e, length, 0)))
  {
    var d := kind + length + tail;
    SectionHeaderBytes(e, kind);
    U32InContext(section.endian, [], kind, length + tail, 0);
    assert d == [] + kind + (length + tail);
    U32InContext(e, kind, length, tail, 0);
    assert d[8..12] == tail[..4];
    MagicReads(e, d);
  }

  /** An encoded section header, reached in whatever section. */
  lemma HeadOfSection(section: Section, e: Endian, more: Bytes, rest: Bytes)
    requires |more| + 16 < 0x1_0000_0000
    ensures HeadOf(section, Wrap(e, SECTION_HEADER, Magic(e) + more) + rest)
         == Some(Head(Section(e, []), SECTION_HEADER, |more| + 16))
  {
    var k, l, body := P32(e, SECTION_HEADER), P32(e, |more| + 16), Magic(e) + more;
    WrappedParts(k, l, body, rest);
    assert (body + l + rest)[..4] == Magic(e);
    HeadOfSectionWords(section, e, k, l, body + l + rest);
  }

  /** Two 16-bit numbers in front of the rest of a body. */
  lemma TwoNumbers(e: Endian, body: Bytes, at: nat, k: Bytes, l: Bytes, rest: Bytes)
    requires |k| == 2 && |l| == 2 && at <= |body| && body[at..] == k + l + rest
    ensures at + 4 <= |body| && U16(e, body, at) == U16(e, k, 0) && U16(e, body, at + 2) == U16(e, l, 0)
    ensures body[at + 4..] == rest
  {
    var s := k + l + rest;
    assert forall i | 0 <= i < |s| :: body[at + i] == body[at..][i] == s[i];
    assert body[at + 4..] == body[at..][4..] == rest;
  }

  /** One round of the option loop that neither ends nor raises. */
  lemma OneOption(e: Endian, body: Bytes, at: nat, next: nat, current: byte, newer: byte)
    requires at + 4 <= |body| && U16(e, body, at) != 0 && next == at + 4 + (U16(e, body, at + 2) + 3) / 4 * 4
    requires var declares := U16(e, body, at) == 9 && U16(e, body, at + 2) > 0;
      if declares then at + 4 < |body| && newer == body[at + 4] else newer == current
    ensures TsResol(e, body, at, current) == TsResol(e, body, next, newer)
  {}

  /** Where an option's code, length and value are, and where the next one starts. */
  lemma OptionParts(e: Endian, body: Bytes, at: nat, o: IfOption, rest: Bytes)
    requires o.Valid() && at <= |body| && body[at..] == EncodeOption(e, o) + rest
    ensures at + |EncodeOption(e, o)| <= |body| && body[at + |EncodeOption(e, o)|..] == rest
    ensures U16(e, body, at) == o.code && U16(e, body, at + 2) == |o.value|
    ensures |o.value| > 0 ==> at + 4 < |body| && body[at + 4] == o.value[0]
  {
    var k, l, more := P16(e, o.code), P16(e, |o.value|), o.value + o.padding + rest;
    assert body[at..] == k + l + more;
    TwoNumbers(e, body, at, k, l, more);
    assert |o.value| > 0 ==> body[at + 4] == body[at + 4..][0] == o.value[0];
    assert body[at + |EncodeOption(e, o)|..] == body[at + 4..][|o.value| + |o.padding|..] == rest;
  }

  /** An option at some position of a body, with the rest of the body behind it. */
  ghost predicate OptionAt(e: Endian, body: Bytes, at: nat, o: IfOption, rest: Bytes) {
    o.Valid() && at <= |body| && body[at..] == EncodeOption(e, o) + rest
  }

  type Walk = (Endian, Bytes, nat, byte) -> Result<byte, CaptureError>

  /** A walk goes one option on, with the resolution it declares if it declares one. */
  ghost predicate PassesOptions(walk: Walk) {
    forall e, body, at: nat, o, rest, current: byte ::
      OptionAt(e, body, at, o, rest) ==>
      walk(e, body, at, current) == walk(e, body, at + 4 + |o.value| + |o.padding|, Newer(o, current))
  }

  lemma OptionReads(e: Endian, body: Bytes, at: nat, o: IfOption, rest: Bytes, current: byte)
    requires OptionAt(e, body, at, o, rest)
    ensures TsResol(e, body, at, current) == TsResol(e, body, at + 4 + |o.value| + |o.padding|, Newer(o, current))
  {
    OptionParts(e, body, at, o, rest);
    Padded(|o.value|, |o.padding|);
    OneOption(e, body, at, at + 4 + |o.value| + |o.padding|, current, Newer(o, current));
  }

  lemma TsResolPassesOptions()
    ensures PassesOptions(TsResol)
  {
    forall e, body, at: nat, o, rest, current: byte | OptionAt(e, body, at, o, rest)
      ensures TsResol(e, body, at, current) == TsResol(e, body, at + 4 + |o.value| + |o.padding|, Newer(o, current))
    {
      OptionReads(e, body, at, o, rest, current);
    }
  }

  lemma Padded(n: nat, p: nat)
    requires p < 4 && (n + p) % 4 == 0
    ensures (n + 3) / 4 * 4 == n + p
  {}

  function Newer(o: IfOption, current: byte): byte {
    if o.code == 9 && |o.value| > 0 then o.value[0] else current
  }

  lemma {:induction false} ResolutionForward(options: seq<IfOption>, current: byte)
    requires options != []
    ensures Resolution(options, current) == Resolution(options[1..], Newer(options[0], current))
    decreases |options|
  {
    if |options| > 1 {
      assert options[..|options| - 1][1..] == options[1..][..|options| - 2];
      ResolutionForward(options[..|options| - 1], current);
    }
  }

  /** And so over any list of options. */
  lemma {:induction false} OptionsPass(walk: Walk, e: Endian, body: Bytes, at: nat, options: seq<IfOption>, rest: Bytes,
                                       current: byte)
    requires PassesOptions(walk) && forall o | o in options :: o.Valid()
    requires at <= |body| && body[at..] == EncodeOptions(e, options) + rest
    ensures var next := at + OptionsLength(options);
      && next <= |body| && body[next..] == rest
      && walk(e, body, at, current) == walk(e, body, next, Resolution(options, current))
    decreases |options|
  {
    if options == [] {
      assert EncodeOptions(e, options) + rest == rest;
    } else {
      var o, more := options[0], EncodeOptions(e, options[1..]) + rest;
      assert body[at..] == EncodeOption(e, o) + more;
      assert OptionAt(e, body, at, o, more);
      OptionParts(e, body, at, o, more);
      OptionsPass(walk, e, body, at + |EncodeOption(e, o)|, options[1..], rest, Newer(o, current));
      ResolutionForward(options, current);
    }
  }

  lemma OptionsEnd(e: Endian, body: Bytes, at: nat, current: byte)
    requires at <= |body| && EndsOptions(body[at..])
    ensures TsResol(e, body, at, current) == Success(current)
  {
    if at + 4 <= |body| {
      assert body[at] == body[at..][0] == 0 && body[at + 1] == body[at..][1] == 0;
    }
  }

  lemma DescriptionOptions(e: Endian, body: Bytes, options: seq<IfOption>, tail: Bytes)
    requires forall o | o in options :: o.Valid()
    requires |body| >= 8 && body[8..] == EncodeOptions(e, options) + tail && EndsOptions(tail)
    ensures TsResol(e, body, 8, 6) == Success(Resolution(options, 6))
  {
    TsResolPassesOptions();
    OptionsPass(TsResol, e, body, 8, options, tail, 6);
    OptionsEnd(e, body, 8 + OptionsLength(options), Resolution(options, 6));
  }

  lemma DescriptionReads(e: Endian, d: Description)
    requires d.Valid()
    ensures var body := d.Body(e);
      |body| >= 2 && U16(e, body, 0) == d.linktype && TsResol(e, body, 8, 6) == Success(Resolution(d.options, 6))
  {
    var body := d.Body(e);
    assert body[0..2] == P16(e, d.linktype);
    assert U16(e, body, 0) == U16(e, body[0..2], 0);
    if |d.reserved| == 6 {
      assert body[8..] == EncodeOptions(e, d.options) + d.tail;
      DescriptionOptions(e, body, d.options, d.tail);
    }
  }

  /** A resolution option whose value is cut off raises, whatever options come before it. */
  lemma CutResolutionRaises(e: Endian, body: Bytes, options: seq<IfOption>, length: uint16)
    requires length > 0 && forall o | o in options :: o.Valid()
    requires |body| >= 8 && body[8..] == EncodeOptions(e, options) + (P16(e, 9) + P16(e, length))
    ensures TsResol(e, body, 8, 6) == Failure(IndexError)
  {
    var k, l, at := P16(e, 9), P16(e, length), 8 + OptionsLength(options);
    TsResolPassesOptions();
    OptionsPass(TsResol, e, body, 8, options, k + l, 6);
    assert body[at..] == k + l + [];
    TwoNumbers(e, body, at, k, l, []);
    CutOptionRaises(e, body, at, Resolution(options, 6));
  }

  lemma CutOptionRaises(e: Endian, body: Bytes, at: nat, current: byte)
    requires at + 4 == |body| && U16(e, body, at) == 9 && U16(e, body, at + 2) > 0
    ensures TsResol(e, body, at, current) == Failure(IndexError)
  {}

  /** Interface descriptions of less than 2 and packet blocks of less than 20 bytes raise; no other length does. */
  lemma ShortBodiesRaise(section: Section, kind: nat, body: Bytes, length: nat)
    ensures BlockStep(section, kind, body, length) == Broken(StructError)
       <==> (kind == 1 && |body| < 2) || (kind == 6 && |body| < 20)
  {
    if kind == 1 && |body| >= 2 { OptionsRaiseIndexError(section.endian, body, 8, 6); }
  }

  lemma {:induction false} OptionsRaiseIndexError(e: Endian, body: Bytes, opos: nat, current: byte)
    ensures TsResol(e, body, opos, current).Failure? ==> TsResol(e, body, opos, current).error == IndexError
    decreases |body| - opos
  {
    if opos + 4 <= |body| {
      var next := opos + 4 + (U16(e, body, opos + 2) + 3) / 4 * 4;
      OptionsRaiseIndexError(e, body, next, current);
      if opos + 4 < |body| { OptionsRaiseIndexError(e, body, next, body[opos + 4]); }
    }
  }

  /** Five words in front of a frame. */
  lemma FiveWords(e: Endian, a: Bytes, b: Bytes, c: Bytes, d: Bytes, o: Bytes, frame: Bytes, rest: Bytes)
    requires |a| == 4 && |b| == 4 && |c| == 4 && |d| == 4 && |o| == 4
    ensures var s := a + b + c + d + o + frame + rest;
      && U32(e, s, 0) == U32(e, a, 0) && U32(e, s, 4) == U32(e, b, 0) && U32(e, s, 8) == U32(e, c, 0)
      && U32(e, s, 12) == U32(e, d, 0) && s[20..20 + |frame|] == frame
  {
    var s := a + b + c + d + o + frame + rest;
    assert s[0..4] == a && s[4..8] == b && s[8..12] == c && s[12..16] == d;
    WordAt(e, s, 0);
    WordAt(e, s, 4);
    WordAt(e, s, 8);
    WordAt(e, s, 12);
  }

  lemma PacketBodyReads(section: Section, id: uint32, hi: uint32, lo: uint32, orig: uint32, frame: Bytes, padding: Bytes)
    requires |frame| < 0x1_0000_0000
    ensures var body := PacketBody(section.endian, id, hi, lo, orig, frame, padding);
      |body| >= 20 && [PacketFrame(section, body)] == FrameOf(section, Captured(id, hi, lo, orig, frame, padding))
  {
    var e := section.endian;
    FiveWords(e, P32(e, id), P32(e, hi), P32(e, lo), P32(e, |frame|), P32(e, orig), frame, padding);
  }

  lemma WordAt(e: Endian, s: Bytes, i: nat)
    requires i + 4 <= |s|
    ensures U32(e, s, i) == U32(e, s[i..i + 4], 0)
  {}

  lemma SectionReads(section: Section, e: Endian, more: Bytes, rest: Bytes)
    requires |more| + 16 < 0x1_0000_0000
    ensures var s := Wrap(e, SECTION_HEADER, Magic(e) + more);
      Block(section, s + rest) == Next(Section(e, []), [], |s|)
  {
    HeadOfSection(section, e, more, rest);
  }

  lemma InterfaceStep(section: Section, body: Bytes, length: nat, i: Interface)
    requires |body| >= 2 && U16(section.endian, body, 0) == i.linktype
    requires TsResol(section.endian, body, 8, 6) == Success(i.tsresol)
    ensures BlockStep(section, 1, body, length) == Next(section.(interfaces := section.interfaces + [i]), [], length)
  {}

  /** An encoded block that does not start a section reads as its body does. */
  lemma WrappedReads(section: Section, kind: uint32, body: Bytes, rest: Bytes)
    requires |body| + 12 < 0x1_0000_0000 && kind != SECTION_HEADER
    ensures Block(section, Wrap(section.endian, kind, body) + rest) == BlockStep(section, kind, body, |body| + 12)
  {
    HeadOfWrapped(section, kind, body, rest);
  }

  lemma InterfaceReads(section: Section, d: Description, rest: Bytes)
    requires d.Valid()
    ensures var s := Wrap(section.endian, 1, d.Body(section.endian));
      Block(section, s + rest) == Next(Entered(section, NewInterface(d)), [], |s|)
  {
    var body := d.Body(section.endian);
    WrappedReads(section, 1, body, rest);
    DescriptionReads(section.endian, d);
    InterfaceStep(section, body, |body| + 12, d.Declares());
  }

  lemma PacketReads(section: Section, body: Bytes, rest: Bytes)
    requires 20 <= |body| && |body| + 12 < 0x1_0000_0000
    ensures var s := Wrap(section.endian, ENHANCED_PACKET, body);
      Block(section, s + rest) == Next(section, [PacketFrame(section, body)], |s|)
  {
    HeadOfWrapped(section, ENHANCED_PACKET, body, rest);
  }

  lemma SkippedReads(section: Section, kind: uint32, body: Bytes, rest: Bytes)
    requires |body| + 12 < 0x1_0000_0000 && kind !in {0x0A0D0D0A, 1, 6}
    ensures var s := Wrap(section.endian, kind, body); Block(section, s + rest) == Next(section, [], |s|)
  {
    HeadOfWrapped(section, kind, body, rest);
  }

  /** Every item reads back as what it means, whatever follows it. */
  lemma ItemReads(section: Section, i: Item, rest: Bytes)
    requires Encodable(i)
    ensures var s := EncodeItem(section.endian, i);
      Block(section, s + rest) == Next(Entered(section, i), FrameOf(section, i), |s|)
  {
    match i
    case NewSection(e, more) => SectionReads(section, e, more, rest);
    case NewInterface(d) => InterfaceReads(section, d, rest);
    case Captured(id, hi, lo, orig, frame, padding) =>
      PacketBodyReads(section, id, hi, lo, orig, frame, padding);
      PacketReads(section, PacketBody(section.endian, id, hi, lo, orig, frame, padding), rest);
    case Skipped(kind, body) => SkippedReads(section, kind, body, rest);
  }

  lemma {:induction false} ItemsRead(section: Section, items: seq<Item>)
    requires Progresses(Block) && forall i | i in items :: Encodable(i)
    ensures Read(Block, section, EncodeItems(section.endian, items)) == Success(Contents(section, items))
    decreases |items|
  {
    if items != [] {
      var s, rest := EncodeItem(section.endian, items[0]), EncodeItems(OrderOf(section.endian, items[0]), items[1..]);
      ItemReads(section, items[0], rest);
      assert (s + rest)[|s|..] == rest;
      ItemsRead(Entered(section, items[0]), items[1..]);
    }
  }

  /** Reading goes on behind a block that holds no frame. */
  lemma ReadBehind(section: Section, s: Bytes, more: Bytes, after: Section)
    requires Progresses(Block) && Block(section, s + more) == Next(after, [], |s|)
    ensures Read(Block, section, s + more) == Read(Block, after, more)
  {
    assert (s + more)[|s|..] == more;
    ThenInOrder([], Success([]), Read(Block, after, more));
  }

  lemma EncodeOneMore(e: Endian, first: Item, items: seq<Item>)
    requires Encodable(first) && forall i | i in items :: Encodable(i)
    ensures EncodeItems(e, [first] + items) == EncodeItem(e, first) + EncodeItems(OrderOf(e, first), items)
  {
    assert ([first] + items)[1..] == items;
  }

  /** Reading undoes encoding: sections of either byte order, any resolutions, packets on any of their interfaces. */
  lemma ParseUndoesEncode(e: Endian, rest: Bytes, items: seq<Item>)
    requires |rest| + 16 < 0x1_0000_0000 && forall i | i in items :: Encodable(i)
    ensures Parsed(EncodeItems(e, [NewSection(e, rest)] + items)) == Success(Contents(Section(e, []), items))
  {
    var first := NewSection(e, rest);
    EncodeOneMore(e, first, items);
    BlocksAreBlocks();
    ItemReads(START, first, EncodeItems(e, items));
    ReadBehind(START, EncodeItem(e, first), EncodeItems(e, items), Section(e, []));
    ItemsRead(Section(e, []), items);
  }
}
