/** The classic PCAP file format (draft-ietf-opsawg-pcap, File Header and Packet Record), as it is read
    here: two byte orders and two timestamp precisions. */
module PcapFormat {
  import opened Options
  import opened Packets

  const GLOBAL_HEADER_LEN := 24
  const PACKET_HEADER_LEN := 16
  const LINKTYPE_ETHERNET := 1
  const MAX_PACKET_LEN := 262144

  datatype Format = Format(littleEndian: bool, nanoseconds: bool)

  // What the reader hands on: whole seconds and the captured bytes.
  datatype Delivery = Delivery(seconds: u32, bytes: seq<byte>)

  datatype Outcome = Outcome(status: int, deliveries: seq<Delivery>)

  // ---------- reading ----------

  function ReadU16(bytes: seq<byte>, i: nat, format: Format): u16
    requires i + 1 < |bytes|
  {
    var first: int, second: int := bytes[i], bytes[i + 1];
    if format.littleEndian then first + second * 0x100 else first * 0x100 + second
  }

  function ReadU32(bytes: seq<byte>, i: nat, format: Format): u32
    requires i + 3 < |bytes|
  {
    var b0: int, b1: int, b2: int, b3: int := bytes[i], bytes[i + 1], bytes[i + 2], bytes[i + 3];
    if format.littleEndian then b0 + b1 * 0x100 + b2 * 0x1_0000 + b3 * 0x100_0000
    else b0 * 0x100_0000 + b1 * 0x1_0000 + b2 * 0x100 + b3
  }

  function ParseMagic(header: seq<byte>): Option<Format>
    requires |header| >= 4
  {
    var magic := header[..4];
    if magic == [0xd4, 0xc3, 0xb2, 0xa1] then Some(Format(true, false))
    else if magic == [0xa1, 0xb2, 0xc3, 0xd4] then Some(Format(false, false))
    else if magic == [0x4d, 0x3c, 0xb2, 0xa1] then Some(Format(true, true))
    else if magic == [0xa1, 0xb2, 0x3c, 0x4d] then Some(Format(false, true))
    else None
  }

  function ReadGlobalHeader(file: seq<byte>): Option<Format> {
    if |file| < GLOBAL_HEADER_LEN then None
    else
      match ParseMagic(file)
      case None => None
      case Some(format) =>
        if ReadU16(file, 4, format) == 2 && ReadU16(file, 6, format) == 4 &&
           ReadU32(file, 20, format) == LINKTYPE_ETHERNET
        then Some(format)
        else None
  }

  // The records of a file after its global header.  A positive `limit` is the number of packets still
  // wanted; zero or less means all of them.
  ghost function ReadRecords(rest: seq<byte>, format: Format, limit: int): Outcome
    decreases |rest|
  {
    if rest == [] then Outcome(0, [])
    else if |rest| < PACKET_HEADER_LEN then Outcome(-1, [])
    else
      var length := ReadU32(rest, 8, format);
      if length > MAX_PACKET_LEN || PACKET_HEADER_LEN + length > |rest| then Outcome(-1, [])
      else
        var delivery := Delivery(ReadU32(rest, 0, format), rest[PACKET_HEADER_LEN..PACKET_HEADER_LEN + length]);
        if limit == 1 then Outcome(0, [delivery])
        else
          var more := ReadRecords(rest[PACKET_HEADER_LEN + length..], format, if limit > 1 then limit - 1 else limit);
          Outcome(more.status, [delivery] + more.deliveries)
  }

  ghost function ReadFile(file: seq<byte>, limit: int): Outcome {
    match ReadGlobalHeader(file)
    case None => Outcome(-1, [])
    case Some(format) => ReadRecords(file[GLOBAL_HEADER_LEN..], format, limit)
  }

  // ---------- writing ----------

  datatype Record = Record(seconds: u32, fraction: u32, original: u32, bytes: seq<byte>)

  function WriteU16(x: u16, format: Format): (r: seq<byte>)
    ensures |r| == 2
  {
    var low: byte, high: byte := x % 0x100, x / 0x100;
    if format.littleEndian then [low, high] else [high, low]
  }

  function WriteU32(x: u32, format: Format): (r: seq<byte>)
    ensures |r| == 4
  {
    var b0: byte, b1: byte, b2: byte, b3: byte := x % 0x100, x / 0x100 % 0x100, x / 0x1_0000 % 0x100, x / 0x100_0000;
    if format.littleEndian then [b0, b1, b2, b3] else [b3, b2, b1, b0]
  }

  function Magic(format: Format): seq<byte> {
    WriteU32(if format.nanoseconds then 0xa1b23c4d else 0xa1b2c3d4, format)
  }

  // Time zone, accuracy and snapshot length are not looked at by the reader.
  function WriteGlobalHeader(format: Format, unused: seq<byte>): seq<byte> {
    Magic(format) + WriteU16(2, format) + WriteU16(4, format) + unused + WriteU32(1, format)
  }

  function WriteRecord(r: Record, format: Format): (bytes: seq<byte>)
    requires |r.bytes| <= MAX_PACKET_LEN
    ensures |bytes| == PACKET_HEADER_LEN + |r.bytes|
    ensures bytes[PACKET_HEADER_LEN..] == r.bytes
  {
    WriteU32(r.seconds, format) + WriteU32(r.fraction, format) +
    WriteU32(|r.bytes|, format) + WriteU32(r.original, format) + r.bytes
  }

  predicate Writable(records: seq<Record>) {
    forall i :: 0 <= i < |records| ==> |records[i].bytes| <= MAX_PACKET_LEN
  }

  function WriteRecords(records: seq<Record>, format: Format): seq<byte>
    requires Writable(records)
  {
    if records == [] then [] else WriteRecord(records[0], format) + WriteRecords(records[1..], format)
  }

  function WriteFile(format: Format, unused: seq<byte>, records: seq<Record>): seq<byte>
    requires Writable(records)
  {
    WriteGlobalHeader(format, unused) + WriteRecords(records, format)
  }

  function Deliveries(records: seq<Record>): (r: seq<Delivery>)
    ensures |r| == |records|
  {
    seq(|records|, i requires 0 <= i < |records| => Delivery(records[i].seconds, records[i].bytes))
  }

  // ---------- numbers ----------

  lemma {:induction false} U16RoundTrip(x: u16, format: Format, bytes: seq<byte>, i: nat)
    requires i + 1 < |bytes| && bytes[i..i + 2] == WriteU16(x, format)
    ensures ReadU16(bytes, i, format) == x
  {
  }

  lemma {:induction false} U32RoundTrip(x: u32, format: Format, bytes: seq<byte>, i: nat)
    requires i + 3 < |bytes| && bytes[i..i + 4] == WriteU32(x, format)
    ensures ReadU32(bytes, i, format) == x
  {
    var four := bytes[i..i + 4];
    assert bytes[i] == four[0] && bytes[i + 1] == four[1] && bytes[i + 2] == four[2] && bytes[i + 3] == four[3];
    assert x / 0x1_0000 == x / 0x100_0000 * 0x100 + x / 0x1_0000 % 0x100;
    assert x / 0x100 == x / 0x1_0000 * 0x100 + x / 0x100 % 0x100;
  }

  lemma {:induction false} GlobalHeaderRoundTrip(format: Format, unused: seq<byte>, file: seq<byte>)
    requires |unused| == 12 && WriteGlobalHeader(format, unused) <= file
    ensures ReadGlobalHeader(file) == Some(format)
  {
    var h := WriteGlobalHeader(format, unused);
    assert file[..4] == h[..4] == Magic(format);
    assert file[4..6] == h[4..6] == WriteU16(2, format);
    assert file[6..8] == h[6..8] == WriteU16(4, format);
    assert file[20..24] == h[20..24] == WriteU32(1, format);
    U16RoundTrip(2, format, file, 4);
    U16RoundTrip(4, format, file, 6);
    U32RoundTrip(1, format, file, 20);
    MagicRoundTrip(format, file);
  }

  lemma {:induction false} MicrosecondMagic(littleEndian: bool)
    ensures Magic(Format(littleEndian, false)) ==
            if littleEndian then [0xd4, 0xc3, 0xb2, 0xa1] else [0xa1, 0xb2, 0xc3, 0xd4]
  {
  }

  lemma {:induction false} NanosecondMagic(littleEndian: bool)
    ensures Magic(Format(littleEndian, true)) ==
            if littleEndian then [0x4d, 0x3c, 0xb2, 0xa1] else [0xa1, 0xb2, 0x3c, 0x4d]
  {
  }

  lemma {:induction false} MagicRoundTrip(format: Format, file: seq<byte>)
    requires |file| >= 4 && file[..4] == Magic(format)
    ensures ParseMagic(file) == Some(format)
  {
    hide Magic;
    var magic := file[..4];
    if format.nanoseconds {
      NanosecondMagic(format.littleEndian);
    } else {
      MicrosecondMagic(format.littleEndian);
    }
  }

  // ---------- cut files ----------

  // How many records lie wholly within the first `room` bytes after the global header.
  ghost function Whole(records: seq<Record>, room: nat): (k: nat)
    ensures k <= |records|
  {
    if records == [] || PACKET_HEADER_LEN + |records[0].bytes| > room then 0
    else 1 + Whole(records[1..], room - PACKET_HEADER_LEN - |records[0].bytes|)
  }

  ghost function Size(records: seq<Record>): nat {
    if records == [] then 0 else PACKET_HEADER_LEN + |records[0].bytes| + Size(records[1..])
  }

  lemma {:induction false} WholeFits(records: seq<Record>, room: nat)
    ensures Size(records[..Whole(records, room)]) <= room
    ensures Whole(records, room) < |records| ==> Size(records[..Whole(records, room) + 1]) > room
  {
    var k := Whole(records, room);
    if k > 0 {
      WholeFits(records[1..], room - PACKET_HEADER_LEN - |records[0].bytes|);
      assert records[..k][1..] == records[1..][..k - 1];
      if k < |records| {
        assert records[..k + 1][1..] == records[1..][..k];
      }
    } else if records != [] {
      assert records[..1][0] == records[0];
    }
  }

  lemma {:induction false} WriteSize(records: seq<Record>, format: Format)
    requires Writable(records)
    ensures |WriteRecords(records, format)| == Size(records)
  {
    if records == [] {
    } else {
      WriteSize(records[1..], format);
    }
  }

  lemma {:induction false} RecordFields(r: Record, format: Format, rest: seq<byte>)
    requires |r.bytes| <= MAX_PACKET_LEN && |rest| >= PACKET_HEADER_LEN
    requires rest[..PACKET_HEADER_LEN] == WriteRecord(r, format)[..PACKET_HEADER_LEN]
    ensures ReadU32(rest, 0, format) == r.seconds && ReadU32(rest, 8, format) == |r.bytes|
  {
    var header := WriteRecord(r, format)[..PACKET_HEADER_LEN];
    assert rest[0..4] == rest[..PACKET_HEADER_LEN][0..4] == header[0..4] == WriteU32(r.seconds, format);
    assert rest[8..12] == rest[..PACKET_HEADER_LEN][8..12] == header[8..12] == WriteU32(|r.bytes|, format);
    U32RoundTrip(r.seconds, format, rest, 0);
    U32RoundTrip(|r.bytes|, format, rest, 8);
  }

  // The number of records delivered and the status, for records cut off after `room` bytes.
  ghost function Cut(records: seq<Record>, room: nat, limit: int): Outcome {
    var whole := Whole(records, room);
    if 0 < limit <= whole then Outcome(0, Deliveries(records[..limit]))
    else Outcome(if Size(records[..whole]) == room then 0 else -1, Deliveries(records[..whole]))
  }

  lemma {:induction false} CutNext(records: seq<Record>, room: nat, limit: int)
    requires records != [] && PACKET_HEADER_LEN + |records[0].bytes| <= room && limit != 1
    ensures var more :=
            Cut(records[1..], room - PACKET_HEADER_LEN - |records[0].bytes|, if limit > 1 then limit - 1 else limit);
            Cut(records, room, limit) ==
              Outcome(more.status, [Delivery(records[0].seconds, records[0].bytes)] + more.deliveries)
  {
    var whole := Whole(records, room);
    var n := if 0 < limit <= whole then limit else whole;
    assert records[..n][1..] == records[1..][..n - 1];
    assert Deliveries(records[..n]) ==
           [Delivery(records[0].seconds, records[0].bytes)] + Deliveries(records[1..][..n - 1]);
    assert records[..whole][1..] == records[1..][..whole - 1];
  }

  lemma {:induction false} CutRecords(records: seq<Record>, format: Format, room: nat, limit: int)
    requires Writable(records) && room <= |WriteRecords(records, format)|
    ensures ReadRecords(WriteRecords(records, format)[..room], format, limit) == Cut(records, room, limit)
  {
    hide ReadU32, WriteU32;
    var rest := WriteRecords(records, format)[..room];
    if records != [] && room >= PACKET_HEADER_LEN {
      var r := records[0];
      var first, tail := WriteRecord(r, format), WriteRecords(records[1..], format);
      assert rest[..PACKET_HEADER_LEN] == first[..PACKET_HEADER_LEN];
      RecordFields(r, format, rest);
      var taken := PACKET_HEADER_LEN + |r.bytes|;
      if taken <= room {
        assert rest[PACKET_HEADER_LEN..taken] == first[PACKET_HEADER_LEN..];
        assert rest[taken..] == tail[..room - taken];
        if limit == 1 {
          assert Deliveries(records[..1]) == [Delivery(r.seconds, r.bytes)];
        } else {
          CutRecords(records[1..], format, room - taken, if limit > 1 then limit - 1 else limit);
          CutNext(records, room, limit);
        }
      } else {
        assert records[..0] == [] && Deliveries([]) == [];
      }
    } else {
      assert records[..0] == [];
      assert Deliveries([]) == [];
    }
  }

  // Reading a file cut at any byte past its global header delivers exactly the whole records before
  // the cut, or as many as were asked for; the status is 0 exactly when enough were there or the cut
  // is on a record boundary.  The byte order makes no difference.
  lemma {:induction false} CutFile(format: Format, unused: seq<byte>, records: seq<Record>, cut: nat, limit: int)
    requires |unused| == 12 && Writable(records) && GLOBAL_HEADER_LEN <= cut <= |WriteFile(format, unused, records)|
    ensures ReadFile(WriteFile(format, unused, records)[..cut], limit) == Cut(records, cut - GLOBAL_HEADER_LEN, limit)
  {
    hide ReadRecords, Cut, ReadGlobalHeader;
    var file := WriteFile(format, unused, records)[..cut];
    var header := WriteGlobalHeader(format, unused);
    assert header <= file;
    GlobalHeaderRoundTrip(format, unused, file);
    assert file[GLOBAL_HEADER_LEN..] == WriteRecords(records, format)[..cut - GLOBAL_HEADER_LEN];
    CutRecords(records, format, cut - GLOBAL_HEADER_LEN, limit);
  }

  lemma {:induction false} WholeOfAll(records: seq<Record>)
    ensures Whole(records, Size(records)) == |records|
  {
    if records == [] {
    } else {
      WholeOfAll(records[1..]);
    }
  }

  // Writing any records in any of the four formats and reading them delivers the same seconds and
  // bytes in order; a limit of n delivers the first n.
  lemma {:induction false} ReadsBackFile(format: Format, unused: seq<byte>, records: seq<Record>, limit: int)
    requires |unused| == 12 && Writable(records)
    ensures ReadFile(WriteFile(format, unused, records), limit) ==
            Outcome(0, Deliveries(if 0 < limit <= |records| then records[..limit] else records))
  {
    hide ReadFile, ReadGlobalHeader;
    var file := WriteFile(format, unused, records);
    WriteSize(records, format);
    CutFile(format, unused, records, |file|, limit);
    WholeOfAll(records);
    assert file[..|file|] == file && records[..|records|] == records;
  }

  // ---------- what any file delivers, written here or not ----------

  lemma {:induction false} U16Unique(bytes: seq<byte>, i: nat, format: Format)
    requires i + 1 < |bytes|
    ensures WriteU16(ReadU16(bytes, i, format), format) == bytes[i..i + 2]
  {
  }

  lemma {:induction false} U32Unique(bytes: seq<byte>, i: nat, format: Format)
    requires i + 3 < |bytes|
    ensures WriteU32(ReadU32(bytes, i, format), format) == bytes[i..i + 4]
  {
    var b0: int, b1: int, b2: int, b3: int := bytes[i], bytes[i + 1], bytes[i + 2], bytes[i + 3];
    if format.littleEndian {
      FourDigits(b0, b1, b2, b3);
    } else {
      FourDigits(b3, b2, b1, b0);
    }
  }

  lemma {:induction false} FourDigits(b0: int, b1: int, b2: int, b3: int)
    requires 0 <= b0 < 0x100 && 0 <= b1 < 0x100 && 0 <= b2 < 0x100 && 0 <= b3 < 0x100
    ensures var x := b0 + b1 * 0x100 + b2 * 0x1_0000 + b3 * 0x100_0000;
            x % 0x100 == b0 && x / 0x100 % 0x100 == b1 && x / 0x1_0000 % 0x100 == b2 && x / 0x100_0000 == b3
  {
    var x := b0 + b1 * 0x100 + b2 * 0x1_0000 + b3 * 0x100_0000;
    assert x / 0x100 == b1 + b2 * 0x100 + b3 * 0x1_0000;
    assert x / 0x1_0000 == b2 + b3 * 0x100;
  }

  // A file is accepted in a format if and only if it starts with a global header of that format.
  lemma {:induction false} HeaderExactly(file: seq<byte>, format: Format)
    ensures ReadGlobalHeader(file) == Some(format) <==>
            exists unused: seq<byte> :: |unused| == 12 && WriteGlobalHeader(format, unused) <= file
  {
    if unused: seq<byte> :| |unused| == 12 && WriteGlobalHeader(format, unused) <= file {
      GlobalHeaderRoundTrip(format, unused, file);
    }
    if ReadGlobalHeader(file) == Some(format) {
      HeaderRebuilt(file, format);
      assert |file[8..20]| == 12 && WriteGlobalHeader(format, file[8..20]) <= file;
    }
  }

  lemma {:induction false} HeaderRebuilt(file: seq<byte>, format: Format)
    requires ReadGlobalHeader(file) == Some(format)
    ensures |file| >= 24 && WriteGlobalHeader(format, file[8..20]) == file[..24]
  {
    hide ReadU16, ReadU32, WriteU16, WriteU32, Magic, ParseMagic;
    U16Unique(file, 4, format);
    U16Unique(file, 6, format);
    U32Unique(file, 20, format);
    MagicUnique(file, format);
    assert file[..24] == file[..4] + file[4..6] + file[6..8] + file[8..20] + file[20..24];
  }

  lemma {:induction false} MagicUnique(file: seq<byte>, format: Format)
    requires |file| >= 4 && ParseMagic(file) == Some(format)
    ensures file[..4] == Magic(format)
  {
    hide Magic;
    MicrosecondMagic(format.littleEndian);
    NanosecondMagic(format.littleEndian);
  }

  // Bytes that no whole record starts: none, a cut header, a length beyond 262144, or a cut record.
  predicate NoRecord(tail: seq<byte>, format: Format) {
    |tail| < 16 || ReadU32(tail, 8, format) > 262144 || 16 + ReadU32(tail, 8, format) > |tail|
  }

  function FirstRecord(rest: seq<byte>, format: Format): (r: Record)
    requires !NoRecord(rest, format)
    ensures |r.bytes| <= 262144 && 16 + |r.bytes| <= |rest|
  {
    Record(ReadU32(rest, 0, format), ReadU32(rest, 4, format), ReadU32(rest, 12, format),
           rest[16..16 + ReadU32(rest, 8, format)])
  }

  lemma {:induction false} FirstRecordWritten(rest: seq<byte>, format: Format)
    requires !NoRecord(rest, format)
    ensures WriteRecord(FirstRecord(rest, format), format) == rest[..16 + |FirstRecord(rest, format).bytes|]
  {
    hide ReadU32, WriteU32;
    var r := FirstRecord(rest, format);
    U32Unique(rest, 0, format);
    U32Unique(rest, 4, format);
    U32Unique(rest, 8, format);
    U32Unique(rest, 12, format);
    assert rest[..16 + |r.bytes|] == rest[0..4] + rest[4..8] + rest[8..12] + rest[12..16] + r.bytes;
  }

  // The records a file starts with, as far as they are whole.
  function RecordsIn(rest: seq<byte>, format: Format): (records: seq<Record>)
    ensures Writable(records)
    decreases |rest|
  {
    if NoRecord(rest, format) then []
    else [FirstRecord(rest, format)] + RecordsIn(rest[16 + |FirstRecord(rest, format).bytes|..], format)
  }

  lemma {:induction false} RecordsInWritten(rest: seq<byte>, format: Format)
    ensures var whole := WriteRecords(RecordsIn(rest, format), format);
            whole <= rest && NoRecord(rest[|whole|..], format)
    decreases |rest|
  {
    hide ReadU32, WriteU32, WriteRecord, FirstRecord;
    if NoRecord(rest, format) {
      assert rest[0..] == rest;
    } else {
      var n := 16 + |FirstRecord(rest, format).bytes|;
      FirstRecordWritten(rest, format);
      RecordsInWritten(rest[n..], format);
      var more := WriteRecords(RecordsIn(rest[n..], format), format);
      assert RecordsIn(rest, format)[1..] == RecordsIn(rest[n..], format);
      assert rest[..n] + more <= rest && rest[|rest[..n] + more|..] == rest[n..][|more|..];
    }
  }

  lemma {:induction false} ReadsFirst(rest: seq<byte>, format: Format, limit: int)
    ensures ReadRecords(rest, format, limit) ==
            if NoRecord(rest, format) then Outcome(if rest == [] then 0 else -1, [])
            else
              var r := FirstRecord(rest, format);
              if limit == 1 then Outcome(0, [Delivery(r.seconds, r.bytes)])
              else
                var more := ReadRecords(rest[16 + |r.bytes|..], format, if limit > 1 then limit - 1 else limit);
                Outcome(more.status, [Delivery(r.seconds, r.bytes)] + more.deliveries)
  {
    hide ReadU32;
  }

  // What is delivered of any bytes behind a header: the whole records they start with, or as many as
  // were asked for, and status 0 exactly if those were enough or nothing is left behind them.
  lemma {:induction false} DeliversWholeRecords(rest: seq<byte>, format: Format, limit: int)
    ensures var records := RecordsIn(rest, format);
            ReadRecords(rest, format, limit) ==
            if 0 < limit <= |records| then Outcome(0, Deliveries(records[..limit]))
            else Outcome(if |WriteRecords(records, format)| == |rest| then 0 else -1, Deliveries(records))
    decreases |rest|
  {
    hide ReadRecords, FirstRecord, WriteRecord, NoRecord;
    var records := RecordsIn(rest, format);
    ReadsFirst(rest, format, limit);
    if NoRecord(rest, format) {
      assert Deliveries([]) == [];
    } else {
      var n := 16 + |FirstRecord(rest, format).bytes|;
      assert records[1..] == RecordsIn(rest[n..], format) && records[0] == FirstRecord(rest, format);
      assert |WriteRecords(records, format)| == n + |WriteRecords(records[1..], format)|;
      var count := if 0 < limit <= |records| then limit else |records|;
      DeliveriesFirst(records, count);
      if limit == 1 {
        assert Deliveries(records[1..][..0]) == [];
      } else {
        DeliversWholeRecords(rest[n..], format, if limit > 1 then limit - 1 else limit);
        assert records[..|records|] == records && records[1..][..|records| - 1] == records[1..];
      }
    }
  }

  lemma {:induction false} DeliveriesFirst(records: seq<Record>, n: nat)
    requires 0 < n <= |records|
    ensures Deliveries(records[..n]) ==
            [Delivery(records[0].seconds, records[0].bytes)] + Deliveries(records[1..][..n - 1])
  {
  }

  // So a file with a header of no format delivers nothing, with status -1.
  lemma {:induction false} BadHeaderRefused(file: seq<byte>, limit: int)
    requires forall format: Format, unused: seq<byte> :: |unused| == 12 ==> !(WriteGlobalHeader(format, unused) <= file)
    ensures ReadFile(file, limit) == Outcome(-1, [])
  {
    hide WriteGlobalHeader;
    var header := ReadGlobalHeader(file);
    if header.Some? {
      HeaderExactly(file, header.value);
    }
  }

}

/** The reader: a loop over the bytes of a file. */
module PcapReader {
  import opened Options
  import opened Packets
  import opened PcapFormat

  // Reads and hands on one packet after another.  A `maxPackets` of zero or less means no limit.
  method Run(file: seq<byte>, maxPackets: int) returns (status: int, deliveries: seq<Delivery>)
    ensures Outcome(status, deliveries) == ReadFile(file, maxPackets)
  {
    hide ReadU16, ReadU32, ReadRecords, Onward;
    status, deliveries := 0, [];
    var header := ReadGlobalHeader(file);
    if header.None? {
      return -1, [];
    }
    var format := header.value;
    var position := GLOBAL_HEADER_LEN;
    ghost var goal := ReadFile(file, maxPackets);
    OnwardStart(file[position..], format, maxPackets);
    while true
      invariant GLOBAL_HEADER_LEN <= position <= |file|
      invariant maxPackets > 0 ==> |deliveries| < maxPackets
      invariant goal == Onward(deliveries, file[position..], format, maxPackets)
      decreases |file| - position
    {
      OnwardStep(deliveries, file[position..], format, maxPackets);
      if position == |file| {
        return;
      }
      if position + PACKET_HEADER_LEN > |file| {
        return -1, deliveries;
      }
      var packetHeader := file[position..position + PACKET_HEADER_LEN];
      HeaderInPlace(file[position..], packetHeader, format);
      var seconds := ReadU32(packetHeader, 0, format);
      var length := ReadU32(packetHeader, 8, format);
      if length > MAX_PACKET_LEN {
        return -1, deliveries;
      }
      var start := position + PACKET_HEADER_LEN;
      if start + length > |file| {
        return -1, deliveries;
      }
      assert file[position..][PACKET_HEADER_LEN..PACKET_HEADER_LEN + length] == file[start..start + length];
      assert file[position..][PACKET_HEADER_LEN + length..] == file[start + length..];
      deliveries := deliveries + [Delivery(seconds, file[start..start + length])];
      position := start + length;
      if maxPackets > 0 && |deliveries| >= maxPackets {
        return;
      }
    }
  }

  // What is still to come, appended to what has been delivered.
  ghost function Onward(done: seq<Delivery>, rest: seq<byte>, format: Format, maxPackets: int): Outcome {
    var more := ReadRecords(rest, format, if maxPackets > 0 then maxPackets - |done| else maxPackets);
    Outcome(more.status, done + more.deliveries)
  }

  lemma {:induction false} OnwardStart(rest: seq<byte>, format: Format, maxPackets: int)
    ensures Onward([], rest, format, maxPackets) == ReadRecords(rest, format, maxPackets)
  {
  }

  lemma {:induction false} OnwardStep(done: seq<Delivery>, rest: seq<byte>, format: Format, maxPackets: int)
    requires maxPackets > 0 ==> |done| < maxPackets
    ensures Onward(done, rest, format, maxPackets) ==
            if rest == [] then Outcome(0, done)
            else if |rest| < PACKET_HEADER_LEN then Outcome(-1, done)
            else
              var length := ReadU32(rest, 8, format);
              if length > MAX_PACKET_LEN || PACKET_HEADER_LEN + length > |rest| then Outcome(-1, done)
              else
                var more := done + [Delivery(ReadU32(rest, 0, format),
                                             rest[PACKET_HEADER_LEN..PACKET_HEADER_LEN + length])];
                if maxPackets > 0 && |more| >= maxPackets then Outcome(0, more)
                else Onward(more, rest[PACKET_HEADER_LEN + length..], format, maxPackets)
  {
  }

  lemma {:induction false} HeaderInPlace(rest: seq<byte>, header: seq<byte>, format: Format)
    requires |header| == PACKET_HEADER_LEN && header <= rest
    ensures ReadU32(header, 0, format) == ReadU32(rest, 0, format) &&
            ReadU32(header, 8, format) == ReadU32(rest, 8, format)
  {
  }
}
