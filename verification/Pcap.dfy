/** Classic libpcap captures (tools/verify_pcap.py, read_pcap). */
module Pcap {
  import opened BlockWalk
  import opened Bytes
  import opened Capture
  import opened LinkLayer
  import opened Wrappers

  // ----- What a capture holds

  datatype Resolution = Microseconds | Nanoseconds

  datatype Format = Format(endian: Endian, resolution: Resolution)

  /** What the records of one file are read under. */
  datatype Layout = Layout(format: Format, linktype: int)

  function FormatOf(magic: Bytes): Option<Format> {
    if magic == [0xd4, 0xc3, 0xb2, 0xa1] then Some(Format(Little, Microseconds))
    else if magic == [0xa1, 0xb2, 0xc3, 0xd4] then Some(Format(Big, Microseconds))
    else if magic == [0x4d, 0x3c, 0xb2, 0xa1] then Some(Format(Little, Nanoseconds))
    else if magic == [0xa1, 0xb2, 0x3c, 0x4d] then Some(Format(Big, Nanoseconds))
    else None
  }

  function TsNs(f: Format, sec: nat, frac: nat): int {
    sec * 1_000_000_000 + if f.resolution.Nanoseconds? then frac else frac * 1_000
  }

  /** A timestamp of an in-range fraction keeps both of its parts. */
  lemma TimestampKeepsParts(f: Format, sec: nat, frac: nat)
    requires frac < if f.resolution.Nanoseconds? then 1_000_000_000 else 1_000_000
    ensures TsNs(f, sec, frac) / 1_000_000_000 == sec
    ensures TsNs(f, sec, frac) % 1_000_000_000 == if f.resolution.Nanoseconds? then frac else 1_000 * frac
  {}

  /** The record at the front of the data, unless it does not fit. */
  function Record(l: Layout, d: Bytes): Step<Layout> {
    var e := l.format.endian;
    if |d| < 16 || 16 + U32(e, d, 8) > |d| then Stop
    else
      var end := 16 + U32(e, d, 8);
      Next(l, [Frame(l.linktype, TsNs(l.format, U32(e, d, 0), U32(e, d, 4)), d[16..end])], end)
  }

  lemma RecordsAreBlocks()
    ensures Progresses(Record) && IgnoresWhatFollows(Record)
  {
    forall l, d: Bytes, rest: Bytes | !Record(l, d).Stop? ensures Record(l, d + rest) == Record(l, d) {
      var e := l.format.endian;
      assert forall i: nat | i <= 8 :: U32(e, d + rest, i) == U32(e, d, i);
      assert (d + rest)[16..16 + U32(e, d, 8)] == d[16..16 + U32(e, d, 8)];
    }
  }

  ghost function Parsed(data: Bytes): Result<seq<Packet>, CaptureError> {
    match FormatOf(Take(data, 4))
    case None => Failure(NotPcap)
    case Some(f) =>
      if |data| < 24 then Failure(StructError)
      else
        RecordsAreBlocks();
        Read(Record, Layout(f, U32(f.endian, data, 20)), data[24..])
  }

  method ReadPcap(data: Bytes) returns (r: Result<seq<Packet>, CaptureError>)
    ensures r == Parsed(data)
  {
    var format := FormatOf(Take(data, 4));
    if format.None? { return Failure(NotPcap); }
    if |data| < 24 { return Failure(StructError); }
    var e := format.value.endian;
    var l := Layout(format.value, U32(e, data, 20));
    RecordsAreBlocks();
    ReadStart(Record, l, data[24..]);
    var out: seq<Packet>, pos := [], 24;
    ghost var rest, all := data[24..], Parsed(data);
    while pos + 16 <= |data|
      invariant pos <= |data| && rest == data[pos..]
      invariant Reading(Record, l, rest, out, all)
      decreases |data| - pos
    {
      var record := ReadRecord(l, data, pos);
      if record.Stop? {
        ReadEnd(Record, l, rest, out, record, all);
        return Success(out);
      }
      ReadNext(Record, l, rest, out, record, all);
      out := AppendPacket(out, record.frames[0]);
      pos, rest := pos + record.length, rest[record.length..];
    }
    ReadEnd(Record, l, rest, out, Stop, all);
    r := Success(out);
  }

  /** One record header and its frame; Stop where the loop breaks. */
  method ReadRecord(l: Layout, data: Bytes, pos: nat) returns (r: Step<Layout>)
    requires pos + 16 <= |data|
    ensures r == Record(l, data[pos..]) && (r.Stop? || (r.Next? && |r.frames| == 1))
    ensures r.Next? ==> r.state == l && Packets(r.frames) == PacketOf(r.frames[0])
  {
    var e := l.format.endian;
    var sec, frac, caplen := U32(e, data, pos), U32(e, data, pos + 4), U32(e, data, pos + 8);
    assert U32(e, data[pos..], 0) == sec && U32(e, data[pos..], 4) == frac && U32(e, data[pos..], 8) == caplen;
    if pos + 16 + caplen > |data| { return Stop; }
    var frame := Frame(l.linktype, TsNs(l.format, sec, frac), data[pos + 16..pos + 16 + caplen]);
    assert data[pos..][16..16 + caplen] == data[pos + 16..pos + 16 + caplen];
    PacketsOfOne(frame);
    r := Next(l, [frame], 16 + caplen);
  }

  // ----- Encoding

  datatype Captured = Captured(sec: uint32, frac: uint32, orig: uint32, frame: Bytes)

  predicate Encodable(records: seq<Captured>) {
    forall r | r in records :: |r.frame| < 0x1_0000_0000
  }

  function MagicOf(f: Format): (m: Bytes)
    ensures FormatOf(m) == Some(f) && |m| == 4
  {
    match f
    case Format(Little, Microseconds) => [0xd4, 0xc3, 0xb2, 0xa1]
    case Format(Big, Microseconds) => [0xa1, 0xb2, 0xc3, 0xd4]
    case Format(Little, Nanoseconds) => [0x4d, 0x3c, 0xb2, 0xa1]
    case Format(Big, Nanoseconds) => [0xa1, 0xb2, 0x3c, 0x4d]
  }

  function RecordHeader(e: Endian, r: Captured): (s: Bytes)
    requires |r.frame| < 0x1_0000_0000
    ensures |s| == 16
    ensures U32(e, s, 0) == r.sec && U32(e, s, 4) == r.frac && U32(e, s, 8) == |r.frame|
  {
    var s := P32(e, r.sec) + P32(e, r.frac) + P32(e, |r.frame|) + P32(e, r.orig);
    assert s[0..4] == P32(e, r.sec) && s[4..8] == P32(e, r.frac) && s[8..12] == P32(e, |r.frame|);
    s
  }

  function EncodeRecords(e: Endian, records: seq<Captured>): Bytes
    requires Encodable(records)
  {
    if records == [] then []
    else RecordHeader(e, records[0]) + records[0].frame + EncodeRecords(e, records[1..])
  }

  /** A capture file; `middle` holds the version, zone, accuracy and snap length fields, which are not read. */
  function Encode(f: Format, middle: Bytes, linktype: uint32, records: seq<Captured>): Bytes
    requires |middle| == 16 && Encodable(records)
  {
    MagicOf(f) + middle + P32(f.endian, linktype) + EncodeRecords(f.endian, records)
  }

  /** The packets of some captured frames. */
  function Contents(l: Layout, records: seq<Captured>): seq<Packet> {
    if records == [] then []
    else
      var r := records[0];
      PacketOf(Frame(l.linktype, TsNs(l.format, r.sec, r.frac), r.frame)) + Contents(l, records[1..])
  }

  lemma RecordOfEncoding(l: Layout, head: Bytes, frame: Bytes, rest: Bytes)
    requires |head| == 16 && U32(l.format.endian, head, 8) == |frame|
    ensures var e := l.format.endian;
      Record(l, head + frame + rest)
      == Next(l, [Frame(l.linktype, TsNs(l.format, U32(e, head, 0), U32(e, head, 4)), frame)], 16 + |frame|)
  {
    var e, d := l.format.endian, head + frame + rest;
    assert U32(e, d, 0) == U32(e, head, 0) && U32(e, d, 4) == U32(e, head, 4) && U32(e, d, 8) == |frame|;
    assert d[16..16 + |frame|] == frame;
  }

  lemma FirstRecord(l: Layout, head: Bytes, frame: Bytes, rest: Bytes)
    requires |head| == 16 && U32(l.format.endian, head, 8) == |frame| && Progresses(Record)
    ensures var e := l.format.endian;
      Read(Record, l, head + frame + rest)
      == Then(Success(PacketOf(Frame(l.linktype, TsNs(l.format, U32(e, head, 0), U32(e, head, 4)), frame))),
              Read(Record, l, rest))
  {
    RecordOfEncoding(l, head, frame, rest);
    assert (head + frame + rest)[16 + |frame|..] == rest;
    var e := l.format.endian;
    PacketsOfOne(Frame(l.linktype, TsNs(l.format, U32(e, head, 0), U32(e, head, 4)), frame));
  }

  lemma {:induction false} ReadOfEncoding(l: Layout, records: seq<Captured>)
    requires Encodable(records) && Progresses(Record)
    ensures Read(Record, l, EncodeRecords(l.format.endian, records)) == Success(Contents(l, records))
    decreases |records|
  {
    if records != [] {
      var r, rest := records[0], EncodeRecords(l.format.endian, records[1..]);
      var head := RecordHeader(l.format.endian, r);
      FirstRecord(l, head, r.frame, rest);
      ReadOfEncoding(l, records[1..]);
    }
  }

  /** Parsing undoes encoding, in either byte order and at either resolution. */
  lemma ParseUndoesEncode(f: Format, middle: Bytes, linktype: uint32, records: seq<Captured>)
    requires |middle| == 16 && Encodable(records)
    ensures Parsed(Encode(f, middle, linktype, records)) == Success(Contents(Layout(f, linktype), records))
  {
    var head, body := MagicOf(f) + middle, EncodeRecords(f.endian, records);
    var data := Encode(f, middle, linktype, records);
    assert Take(data, 4) == MagicOf(f);
    U32InContext(f.endian, head, P32(f.endian, linktype), body, 0);
    assert data[24..] == body;
    RecordsAreBlocks();
    ReadOfEncoding(Layout(f, linktype), records);
  }

  // ----- The file format, written out

  /** What a file's first four bytes say about byte order and nanoseconds per fraction. */
  predicate Announces(magic: Bytes, e: Endian, unit: nat) {
    || (magic == [0xD4, 0xC3, 0xB2, 0xA1] && e == Little && unit == 1_000)
    || (magic == [0xA1, 0xB2, 0xC3, 0xD4] && e == Big && unit == 1_000)
    || (magic == [0x4D, 0x3C, 0xB2, 0xA1] && e == Little && unit == 1)
    || (magic == [0xA1, 0xB2, 0x3C, 0x4D] && e == Big && unit == 1)
  }

  lemma FormatIsAnnounced(magic: Bytes, e: Endian, unit: nat)
    ensures Announces(magic, e, unit)
       <==> FormatOf(magic).Some? && FormatOf(magic).value.endian == e
            && unit == if FormatOf(magic).value.resolution.Microseconds? then 1_000 else 1
  {}

  /** Only these four kinds of file are read. */
  lemma OtherFilesRefused(data: Bytes)
    ensures Parsed(data) == Failure(NotPcap)
       <==> forall e, unit: nat :: !Announces(Take(data, 4), e, unit)
  {
    var magic := Take(data, 4);
    if FormatOf(magic).Some? {
      var f := FormatOf(magic).value;
      FormatIsAnnounced(magic, f.endian, if f.resolution.Microseconds? then 1_000 else 1);
      if |data| >= 24 {
        RecordsAreBlocks();
        RecordsNeverBreak(Layout(f, U32(f.endian, data, 20)), data[24..]);
      }
    } else {
      forall e, unit: nat ensures !Announces(magic, e, unit) { FormatIsAnnounced(magic, e, unit); }
    }
  }

  lemma HeadWords(e: Endian, data: Bytes)
    requires |data| >= 40
    ensures var head := data[24..40];
      U32(e, head, 0) == U32(e, data, 24) && U32(e, head, 4) == U32(e, data, 28) && U32(e, head, 8) == U32(e, data, 32)
  {}

  lemma OneRecord(l: Layout, head: Bytes, f: Frame)
    requires |head| == 16 && U32(l.format.endian, head, 8) == |f.bytes| && Progresses(Record)
    requires var e := l.format.endian;
      f.linktype == l.linktype && f.tsNs == TsNs(l.format, U32(e, head, 0), U32(e, head, 4))
    ensures Read(Record, l, head + f.bytes) == Success(PacketOf(f))
  {
    assert head + f.bytes + [] == head + f.bytes;
    FirstRecord(l, head, f.bytes, []);
    ThenInOrder(PacketOf(f), Success([]), Success([]));
  }

  lemma ParsedIsRead(data: Bytes, f: Format)
    requires Progresses(Record) && |data| >= 24 && FormatOf(data[..4]) == Some(f)
    ensures Parsed(data) == Read(Record, Layout(f, U32(f.endian, data, 20)), data[24..])
  {
    assert Take(data, 4) == data[..4];
  }

  /** A file of one record: link type at 20, seconds, fraction and captured length at 24, 28 and 32, the frame at 40. */
  lemma OneRecordFile(data: Bytes, e: Endian, unit: nat, frame: Frame)
    requires |data| >= 40 && Announces(data[..4], e, unit) && U32(e, data, 32) == |data| - 40
    requires frame.linktype == U32(e, data, 20) && frame.bytes == data[40..]
    requires frame.tsNs == U32(e, data, 24) * 1_000_000_000 + U32(e, data, 28) * unit
    ensures var ip := Extracted(frame.linktype, frame.bytes);
      Parsed(data) == Success(if ip.Some? then [Packet(frame.tsNs, ip.value)] else [])
  {
    FormatIsAnnounced(data[..4], e, unit);
    var f := FormatOf(data[..4]).value;
    RecordsAreBlocks();
    ParsedIsRead(data, f);
    HeadWords(e, data);
    assert data[24..] == data[24..40] + data[40..];
    OneRecord(Layout(f, U32(e, data, 20)), data[24..40], frame);
  }

  // ----- Truncation

  lemma {:induction false} RecordsNeverBreak(l: Layout, d: Bytes)
    requires Progresses(Record)
    ensures Read(Record, l, d).Success?
    decreases |d|
  {
    var r := Record(l, d);
    if r.Next? { RecordsNeverBreak(l, d[r.length..]); }
  }

  /** A capture cut anywhere after its header parses to a prefix of the whole, and fails only if the whole does. */
  lemma TruncationParsesToPrefix(data: Bytes, k: nat)
    requires 24 <= k <= |data|
    ensures Parsed(data).Success? == Parsed(data[..k]).Success?
    ensures Parsed(data).Success? ==> Parsed(data[..k]).value <= Parsed(data).value
  {
    assert Take(data[..k], 4) == Take(data, 4);
    var format := FormatOf(Take(data, 4));
    if format.Some? {
      var e := format.value.endian;
      var l := Layout(format.value, U32(e, data, 20));
      assert U32(e, data[..k], 20) == U32(e, data, 20);
      assert data[..k][24..] == data[24..][..k - 24];
      RecordsAreBlocks();
      RecordsNeverBreak(l, data[24..]);
      ReadOfTruncation(Record, l, data[24..], k - 24);
    }
  }
}
