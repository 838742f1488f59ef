/**
 The libpcap capture reader: fixed-width reads, the 24-byte global header
 check and the scan of the record stream into a packet index.

 A capture is a 24-byte global header followed by records; each record is a
 16-byte header (`ts_sec`, `ts_subsec`, `cap_len`, `orig_len`, four bytes each)
 followed by `cap_len` bytes of frame data.
 */
module Reader {
  import opened Results
  import opened Bytes

  type u16 = x: nat | x < 0x1_0000
  type u32 = x: nat | x < 0x1_0000_0000

  const PCAP_MAGIC: u32 := 0xA1B2C3D4
  /** The magic number as it appears in the file on a little-endian host. */
  const MAGIC_BYTES: seq<byte> := [0xD4, 0xC3, 0xB2, 0xA1]
  const GLOBAL_HEADER_LEN: nat := 24
  const RECORD_HEADER_LEN: nat := 16

  /** One record of the capture: where its header starts and what the header says. */
  datatype PacketDescriptor = PacketDescriptor(
    offset: nat,
    tsSec: u32,
    tsSubsec: u32,
    capLen: u32,
    origLen: u32)
  {
    /** Where the following record starts: after this header and its captured bytes. */
    function Next(): nat {
      offset + RECORD_HEADER_LEN + capLen
    }
  }

  /** Major and minor version from the global header (the source only prints them). */
  datatype Version = Version(major: u16, minor: u16)

  /** `read_u32`: the four bytes at `offset`, or a panic when the slice leaves the buffer. */
  function ReadU32(pcap: seq<byte>, offset: nat): (r: Result<u32>)
    ensures r.Ok? <==> offset + 4 <= |pcap|
    ensures r.Ok? ==> ToLittleEndian(r.value, 4) == pcap[offset..offset + 4]
    ensures r.Panic? ==> r.fault == SliceOutOfRange(offset, offset + 4, |pcap|)
  {
    if offset + 4 <= |pcap| then
      var bytes := pcap[offset..offset + 4];
      Pow256Widths();
      EncodeDecode(bytes);
      Ok(LittleEndian(bytes))
    else
      Panic(SliceOutOfRange(offset, offset + 4, |pcap|))
  }

  /** `read_u16`: the two bytes at `offset`, or a panic when the slice leaves the buffer. */
  function ReadU16(pcap: seq<byte>, offset: nat): (r: Result<u16>)
    ensures r.Ok? <==> offset + 2 <= |pcap|
    ensures r.Ok? ==> ToLittleEndian(r.value, 2) == pcap[offset..offset + 2]
    ensures r.Panic? ==> r.fault == SliceOutOfRange(offset, offset + 2, |pcap|)
  {
    if offset + 2 <= |pcap| then
      var bytes := pcap[offset..offset + 2];
      Pow256Widths();
      EncodeDecode(bytes);
      Ok(LittleEndian(bytes))
    else
      Panic(SliceOutOfRange(offset, offset + 2, |pcap|))
  }

  /** The record header of `d` lies inside `pcap` and its four fields are stored there. */
  ghost predicate Describes(pcap: seq<byte>, d: PacketDescriptor) {
    var o := d.offset;
    && o + RECORD_HEADER_LEN <= |pcap|
    && ToLittleEndian(d.tsSec, 4) == pcap[o..o + 4]
    && ToLittleEndian(d.tsSubsec, 4) == pcap[o + 4..o + 8]
    && ToLittleEndian(d.capLen, 4) == pcap[o + 8..o + 12]
    && ToLittleEndian(d.origLen, 4) == pcap[o + 12..o + 16]
  }

  /** `read_packet`: the descriptor of the record at `offset` and the offset of the next one. */
  function ReadPacket(pcap: seq<byte>, offset: nat): (r: Result<(PacketDescriptor, nat)>)
    ensures r.Ok? <==> offset + RECORD_HEADER_LEN <= |pcap|
    ensures r.Ok? ==> r.value.0.offset == offset && Describes(pcap, r.value.0)
    ensures r.Ok? ==> r.value.1 == offset + RECORD_HEADER_LEN + r.value.0.capLen
    ensures r.Panic? ==> r.fault.SliceOutOfRange? && offset <= r.fault.start && r.fault.end > |pcap|
  {
    var tsSec :- ReadU32(pcap, offset);
    var tsSubsec :- ReadU32(pcap, offset + 4);
    var capLen :- ReadU32(pcap, offset + 8);
    var origLen :- ReadU32(pcap, offset + 12);
    Ok((PacketDescriptor(offset, tsSec, tsSubsec, capLen, origLen), offset + 16 + capLen))
  }

  /** A record whose header is stored at its offset is read back exactly. */
  lemma ReadPacketDescribed(pcap: seq<byte>, d: PacketDescriptor)
    requires Describes(pcap, d)
    ensures ReadPacket(pcap, d.offset) == Ok((d, d.Next()))
  {
    var r := ReadPacket(pcap, d.offset);
    var e := r.value.0;
    Pow256Widths();
    DecodeEncode(e.tsSec, 4);
    DecodeEncode(d.tsSec, 4);
    DecodeEncode(e.tsSubsec, 4);
    DecodeEncode(d.tsSubsec, 4);
    DecodeEncode(e.capLen, 4);
    DecodeEncode(d.capLen, 4);
    DecodeEncode(e.origLen, 4);
    DecodeEncode(d.origLen, 4);
  }

  /** `read_header`: checks the magic number and that the FCS nibble (high half of byte 20) is zero. */
  function ReadHeader(pcap: seq<byte>): (r: Result<Version>)
    ensures r.Ok? <==> 21 <= |pcap| && pcap[..4] == MAGIC_BYTES && pcap[20] < 16
    ensures r.Ok? ==> ToLittleEndian(r.value.major, 2) == pcap[4..6]
    ensures r.Ok? ==> ToLittleEndian(r.value.minor, 2) == pcap[6..8]
    ensures 4 <= |pcap| && pcap[..4] != MAGIC_BYTES ==> r.Panic? && r.fault.MagicMismatch?
    ensures 21 <= |pcap| && pcap[..4] == MAGIC_BYTES && 16 <= pcap[20] ==> r == Panic(FcsPresent(pcap[20] / 16))
  {
    var magic :- ReadU32(pcap, 0);
    MagicBytesExact(magic);
    if magic != PCAP_MAGIC then
      Panic(MagicMismatch(magic))
    else
      var major :- ReadU16(pcap, 4);
      var minor :- ReadU16(pcap, 6);
      if |pcap| <= 20 then
        Panic(IndexOutOfRange(20, |pcap|))
      else
        var fcs := pcap[20] / 16;
        if fcs != 0 then Panic(FcsPresent(fcs)) else Ok(Version(major, minor))
  }

  /** A 32-bit value is the magic number exactly when its bytes are `MAGIC_BYTES`. */
  lemma MagicBytesExact(v: u32)
    ensures v == PCAP_MAGIC <==> ToLittleEndian(v, 4) == MAGIC_BYTES
  {
    Pow256Widths();
    DecodeEncode(v, 4);
    assert ToLittleEndian(PCAP_MAGIC, 4) == MAGIC_BYTES;
    DecodeEncode(PCAP_MAGIC, 4);
  }

  /** `build_packet_index` from cursor `offset`: one descriptor per record until the cursor reaches the end. */
  function IndexFrom(pcap: seq<byte>, offset: nat): (r: Result<seq<PacketDescriptor>>)
    decreases |pcap| - offset
  {
    if offset < |pcap| then
      var (packet, next) :- ReadPacket(pcap, offset);
      var rest :- IndexFrom(pcap, next);
      Ok([packet] + rest)
    else
      Ok([])
  }

  /** `index` followed by the records in `r`, or the failure `r` carries. */
  function Prepend(index: seq<PacketDescriptor>, r: Result<seq<PacketDescriptor>>): Result<seq<PacketDescriptor>> {
    match r
    case Ok(rest) => Ok(index + rest)
    case Panic(f) => Panic(f)
  }

  /** Where scanning continues after `index`, having started at `start`. */
  function Cursor(start: nat, index: seq<PacketDescriptor>): nat {
    if |index| == 0 then start else index[|index| - 1].Next()
  }

  /**
   `index` is what the scan reads between cursor `start` and cursor `end`:
   each record starts inside the buffer, has its header stored there, and
   starts where the previous one ended.
   */
  ghost predicate Chained(pcap: seq<byte>, start: nat, index: seq<PacketDescriptor>, end: nat) {
    && (forall i :: 0 <= i < |index| ==> index[i].offset < |pcap| && Describes(pcap, index[i]))
    && (forall i :: 0 <= i < |index| - 1 ==> index[i + 1].offset == index[i].Next())
    && (|index| > 0 ==> index[0].offset == start)
    && Cursor(start, index) == end
  }

  /** `index` is the complete packet index of `pcap`: the chain from byte 24 that runs to the end of the buffer. */
  ghost predicate ValidIndex(pcap: seq<byte>, index: seq<PacketDescriptor>) {
    && Chained(pcap, GLOBAL_HEADER_LEN, index, Cursor(GLOBAL_HEADER_LEN, index))
    && Cursor(GLOBAL_HEADER_LEN, index) >= |pcap|
  }

  /** After its first record, a chain continues as a chain from that record's successor. */
  lemma ChainedTail(pcap: seq<byte>, start: nat, index: seq<PacketDescriptor>, end: nat)
    requires Chained(pcap, start, index, end)
    requires |index| > 0
    ensures Chained(pcap, index[0].Next(), index[1..], end)
  {
    var tail := index[1..];
    assert forall i :: 0 <= i < |tail| ==> tail[i] == index[i + 1];
  }

  /** A record stored at `d.offset`, followed by a chain from its successor, is a chain from `d.offset`. */
  lemma ChainedCons(pcap: seq<byte>, d: PacketDescriptor, rest: seq<PacketDescriptor>, end: nat)
    requires d.offset < |pcap| && Describes(pcap, d)
    requires Chained(pcap, d.Next(), rest, end)
    ensures Chained(pcap, d.offset, [d] + rest, end)
    ensures Cursor(d.offset, [d] + rest) == Cursor(d.Next(), rest)
  {
    var index := [d] + rest;
    assert forall i :: 0 < i < |index| ==> index[i] == rest[i - 1];
  }

  /** One step of the scan: the record at `start`, then the scan from its successor. */
  lemma ScanStep(pcap: seq<byte>, start: nat, d: PacketDescriptor)
    requires start < |pcap|
    requires ReadPacket(pcap, start) == Ok((d, d.Next()))
    ensures IndexFrom(pcap, start) == Prepend([d], IndexFrom(pcap, d.Next()))
  {
  }

  lemma PrependPrepend(a: seq<PacketDescriptor>, b: seq<PacketDescriptor>, r: Result<seq<PacketDescriptor>>)
    ensures Prepend(a, Prepend(b, r)) == Prepend(a + b, r)
  {
    if r.Ok? {
      assert a + (b + r.value) == (a + b) + r.value;
    }
  }

  /** Scanning from `start` reads `index` first and then continues from where `index` ends. */
  lemma {:induction false} ChainedScan(pcap: seq<byte>, start: nat, index: seq<PacketDescriptor>, end: nat)
    requires Chained(pcap, start, index, end)
    ensures IndexFrom(pcap, start) == Prepend(index, IndexFrom(pcap, end))
    decreases |index|
  {
    if |index| == 0 {
      var r := IndexFrom(pcap, end);
      if r.Ok? {
        assert index + r.value == r.value;
      }
    } else {
      var d := index[0];
      ReadPacketDescribed(pcap, d);
      ScanStep(pcap, start, d);
      ChainedTail(pcap, start, index, end);
      ChainedScan(pcap, d.Next(), index[1..], end);
      PrependPrepend([d], index[1..], IndexFrom(pcap, end));
      assert [d] + index[1..] == index;
    }
  }

  /** Whatever the scan from `start` returns is a chain that runs to the end of the buffer. */
  lemma {:induction false} ScanChained(pcap: seq<byte>, start: nat)
    requires IndexFrom(pcap, start).Ok?
    ensures Chained(pcap, start, IndexFrom(pcap, start).value, Cursor(start, IndexFrom(pcap, start).value))
    ensures Cursor(start, IndexFrom(pcap, start).value) >= |pcap|
    decreases |pcap| - start
  {
    if start < |pcap| {
      var (d, next) := ReadPacket(pcap, start).value;
      ScanChained(pcap, next);
      var rest := IndexFrom(pcap, next).value;
      assert IndexFrom(pcap, start).value == [d] + rest;
      ChainedCons(pcap, d, rest, Cursor(next, rest));
    }
  }

  /** A scan from `start` fails exactly when some record header reached by the chain straddles the end of the buffer. */
  lemma {:induction false} ScanFailsAtStraddlingHeader(pcap: seq<byte>, start: nat)
    requires IndexFrom(pcap, start).Panic?
    ensures exists prefix: seq<PacketDescriptor>, end: nat ::
      Chained(pcap, start, prefix, end) && end < |pcap| < end + RECORD_HEADER_LEN
    decreases |pcap| - start
  {
    assert start < |pcap|;
    if ReadPacket(pcap, start).Panic? {
      assert Chained(pcap, start, [], start);
    } else {
      var (d, next) := ReadPacket(pcap, start).value;
      ScanFailsAtStraddlingHeader(pcap, next);
      var prefix: seq<PacketDescriptor>, end: nat :| Chained(pcap, next, prefix, end) && end < |pcap| < end + RECORD_HEADER_LEN;
      ChainedCons(pcap, d, prefix, end);
    }
  }

  /** `build_packet_index`: the scan of the record stream starting right after the global header. */
  function BuildIndex(pcap: seq<byte>): (r: Result<seq<PacketDescriptor>>)
    ensures r.Ok? ==> ValidIndex(pcap, r.value)
    ensures |pcap| <= GLOBAL_HEADER_LEN ==> r == Ok([])
  {
    var r := IndexFrom(pcap, GLOBAL_HEADER_LEN);
    if r.Ok? then ScanChained(pcap, GLOBAL_HEADER_LEN); r else r
  }

  /** The index built is the unique chain from byte 24 to the end of the buffer. */
  lemma BuildIndexExact(pcap: seq<byte>, index: seq<PacketDescriptor>)
    ensures BuildIndex(pcap) == Ok(index) <==> ValidIndex(pcap, index)
  {
    if ValidIndex(pcap, index) {
      var end := Cursor(GLOBAL_HEADER_LEN, index);
      ChainedScan(pcap, GLOBAL_HEADER_LEN, index, end);
      assert IndexFrom(pcap, end) == Ok([]);
      assert index + [] == index;
    }
  }

  /**
   The scan fails exactly when a record header that starts inside the buffer
   runs past its end; then no valid index exists.
   */
  lemma BuildIndexFails(pcap: seq<byte>)
    ensures BuildIndex(pcap).Panic? <==>
      exists prefix: seq<PacketDescriptor>, end: nat ::
        Chained(pcap, GLOBAL_HEADER_LEN, prefix, end) && end < |pcap| < end + RECORD_HEADER_LEN
    ensures BuildIndex(pcap).Panic? ==> forall index :: !ValidIndex(pcap, index)
  {
    if BuildIndex(pcap).Panic? {
      ScanFailsAtStraddlingHeader(pcap, GLOBAL_HEADER_LEN);
      forall index | ValidIndex(pcap, index)
        ensures false
      {
        BuildIndexExact(pcap, index);
      }
    } else {
      forall prefix: seq<PacketDescriptor>, end: nat | Chained(pcap, GLOBAL_HEADER_LEN, prefix, end)
        ensures !(end < |pcap| < end + RECORD_HEADER_LEN)
      {
        ChainedScan(pcap, GLOBAL_HEADER_LEN, prefix, end);
      }
    }
  }

  /** The `while` loop of `build_packet_index`, step by step. */
  method BuildPacketIndex(pcap: seq<byte>) returns (r: Result<seq<PacketDescriptor>>)
    ensures r == BuildIndex(pcap)
    ensures r.Ok? ==> ValidIndex(pcap, r.value)
  {
    var index: seq<PacketDescriptor> := [];
    var offset: nat := GLOBAL_HEADER_LEN;
    var scan := IndexFrom(pcap, offset);
    if scan.Ok? {
      assert index + scan.value == scan.value;
    }
    while offset < |pcap|
      invariant IndexFrom(pcap, GLOBAL_HEADER_LEN) == Prepend(index, IndexFrom(pcap, offset))
      decreases |pcap| - offset
    {
      var step := ReadPacket(pcap, offset);
      if step.Panic? {
        return Panic(step.fault);
      }
      var (packet, next) := step.value;
      ScanStep(pcap, offset, packet);
      PrependPrepend(index, [packet], IndexFrom(pcap, next));
      index := index + [packet];
      offset := next;
    }
    assert index + [] == index;
    return Ok(index);
  }

  /** Along a chain, each record starts at least 16 bytes after the previous one. */
  lemma {:induction false} ChainGap(pcap: seq<byte>, start: nat, index: seq<PacketDescriptor>, end: nat, i: nat, j: nat)
    requires Chained(pcap, start, index, end)
    requires i <= j < |index|
    ensures index[i].offset + RECORD_HEADER_LEN * (j - i) <= index[j].offset
    decreases j - i
  {
    if i < j {
      ChainGap(pcap, start, index, end, i, j - 1);
      assert index[j].offset == index[j - 1].Next();
    }
  }

  /**
   In a packet index, offsets strictly increase (by at least 16 per record),
   and every record except the last one ends inside the buffer.
   */
  lemma IndexOrdered(pcap: seq<byte>, index: seq<PacketDescriptor>)
    requires ValidIndex(pcap, index)
    ensures forall i, j :: 0 <= i < j < |index| ==> index[i].offset + RECORD_HEADER_LEN * (j - i) <= index[j].offset
    ensures forall i, j :: 0 <= i < j < |index| ==> index[i].offset < index[j].offset
    ensures forall i :: 0 <= i < |index| - 1 ==> index[i].Next() < |pcap|
  {
    var end := Cursor(GLOBAL_HEADER_LEN, index);
    forall i, j | 0 <= i < j < |index|
      ensures index[i].offset + RECORD_HEADER_LEN * (j - i) <= index[j].offset
    {
      ChainGap(pcap, GLOBAL_HEADER_LEN, index, end, i, j);
    }
    forall i | 0 <= i < |index| - 1
      ensures index[i].Next() < |pcap|
    {
      assert index[i + 1].offset == index[i].Next();
    }
  }

  /** Bytes covered by the records of `index`: each header plus its captured data. */
  function Span(index: seq<PacketDescriptor>): nat {
    if |index| == 0 then 0 else RECORD_HEADER_LEN + index[0].capLen + Span(index[1..])
  }

  /** The records of a chain tile the bytes from its start to its end cursor, without gaps or overlaps. */
  lemma {:induction false} ChainTiles(pcap: seq<byte>, start: nat, index: seq<PacketDescriptor>, end: nat)
    requires Chained(pcap, start, index, end)
    ensures end == start + Span(index)
    decreases |index|
  {
    if |index| > 0 {
      ChainedTail(pcap, start, index, end);
      ChainTiles(pcap, index[0].Next(), index[1..], end);
    }
  }

  /**
   A final record whose captured data runs past the end of the buffer is not
   rejected: a single such record after the global header is indexed and the
   scan stops.
   */
  lemma FinalRecordMayOverrun(pcap: seq<byte>)
    requires GLOBAL_HEADER_LEN + RECORD_HEADER_LEN <= |pcap| < GLOBAL_HEADER_LEN + RECORD_HEADER_LEN + LittleEndian(pcap[32..36])
    ensures BuildIndex(pcap).Ok?
    ensures |BuildIndex(pcap).value| == 1
    ensures BuildIndex(pcap).value[0].offset == GLOBAL_HEADER_LEN
    ensures BuildIndex(pcap).value[0].Next() > |pcap|
  {
    var (d, next) := ReadPacket(pcap, GLOBAL_HEADER_LEN).value;
    Pow256Widths();
    DecodeEncode(d.capLen, 4);
    assert next > |pcap|;
    assert IndexFrom(pcap, next) == Ok([]);
    ScanStep(pcap, GLOBAL_HEADER_LEN, d);
    assert [d] + [] == [d];
  }
}
