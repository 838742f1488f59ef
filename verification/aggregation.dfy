/**
 The host-side aggregation of `main`: per-packet address extraction, one
 traffic matrix per worker over its range of the packet index, and the merge
 of the workers' matrices in join order.

 Threads are modelled as a sequential pass over the workers' ranges; a worker
 that panics makes `join().expect` panic, so the first failing worker in join
 order decides the outcome.
 */
module Aggregation {
  import opened Results
  import opened Bytes
  import opened Reader
  import opened Traffic
  import opened Partition

  const PCAP_PKT_HEADER: nat := 16
  const ETHERNET_HEADER: nat := 14
  const HEADER_OFFSET: nat := PCAP_PKT_HEADER + ETHERNET_HEADER
  /** Offsets of the source and destination address inside the IPv4 header. */
  const IPV4_SRC_OFFSET: nat := 12
  const IPV4_DST_OFFSET: nat := 16

  /** `u32::to_be` on a little-endian host: the value with its bytes in reverse order. */
  function ToBigEndian(x: u32): (y: u32)
    ensures ToLittleEndian(y, 4) == Reverse(ToLittleEndian(x, 4))
  {
    var swapped := Reverse(ToLittleEndian(x, 4));
    Pow256Widths();
    EncodeDecode(swapped);
    LittleEndian(swapped)
  }

  /** `Ipv4Addr::from(u32)`: the address whose octets, first to last, are the value's bytes from most to least significant. */
  function AddrFromBits(x: u32): (a: Ipv4)
    ensures LittleEndian(Reverse(a)) == x
  {
    var octets := Reverse(ToLittleEndian(x, 4));
    Pow256Widths();
    ReverseReverse(ToLittleEndian(x, 4));
    DecodeEncode(x, 4);
    octets
  }

  /**
   `Ipv4Addr::from(read_u32(pcap, at).to_be())`, step by step as the source
   writes it: a little-endian read, a byte swap, and octets taken from the most
   significant byte down.
   */
  function ReadAddressAsWritten(pcap: seq<byte>, at: nat): Result<Ipv4> {
    var raw :- ReadU32(pcap, at);
    Ok(AddrFromBits(ToBigEndian(raw)))
  }

  /** The address at `at`: the four buffer bytes in order, or the panic of the out-of-range slice. */
  function ReadAddress(pcap: seq<byte>, at: nat): (r: Result<Ipv4>)
    ensures r.Ok? <==> at + 4 <= |pcap|
    ensures r.Panic? ==> r.fault == SliceOutOfRange(at, at + 4, |pcap|)
  {
    if at + 4 <= |pcap| then Ok(pcap[at..at + 4]) else Panic(SliceOutOfRange(at, at + 4, |pcap|))
  }

  /**
   On a little-endian host the two byte swaps cancel: the address the source
   builds has the buffer bytes as octets, in buffer order.
   */
  lemma SwapsCancel(pcap: seq<byte>, at: nat)
    ensures ReadAddressAsWritten(pcap, at) == ReadAddress(pcap, at)
  {
    var raw := ReadU32(pcap, at);
    if raw.Ok? {
      var bytes := ToLittleEndian(raw.value, 4);
      assert bytes == pcap[at..at + 4];
      ReverseReverse(bytes);
      assert AddrFromBits(ToBigEndian(raw.value)) == Reverse(Reverse(bytes));
    }
  }

  /** Both addresses of the packet described by `d` lie inside the buffer. */
  predicate Readable(pcap: seq<byte>, d: PacketDescriptor) {
    d.offset + HEADER_OFFSET + IPV4_DST_OFFSET + 4 <= |pcap|
  }

  /** The source and destination of a packet, read at fixed offsets from its record. */
  function FlowOf(pcap: seq<byte>, d: PacketDescriptor): (r: Result<Flow>)
    ensures r.Ok? <==> Readable(pcap, d)
  {
    var src :- ReadAddress(pcap, d.offset + HEADER_OFFSET + IPV4_SRC_OFFSET);
    var dst :- ReadAddress(pcap, d.offset + HEADER_OFFSET + IPV4_DST_OFFSET);
    Ok(Flow(src, dst))
  }

  /**
   The flow of a readable packet is the four bytes at offset 42 of its record
   (16 record-header bytes, 14 Ethernet bytes, 12 into the IPv4 header) and the
   four after them; an unreadable one panics on the first address that overruns.
   */
  lemma FlowOfReads(pcap: seq<byte>, d: PacketDescriptor)
    ensures Readable(pcap, d) ==>
              FlowOf(pcap, d) == Ok(Flow(pcap[d.offset + 42..d.offset + 46], pcap[d.offset + 46..d.offset + 50]))
    ensures d.offset + 46 > |pcap| ==> FlowOf(pcap, d) == Panic(SliceOutOfRange(d.offset + 42, d.offset + 46, |pcap|))
    ensures d.offset + 46 <= |pcap| < d.offset + 50 ==>
              FlowOf(pcap, d) == Panic(SliceOutOfRange(d.offset + 46, d.offset + 50, |pcap|))
  {
  }

  /** The flows of `packets` in order, or the panic of the first packet whose addresses lie outside the buffer. */
  function ExtractFlows(pcap: seq<byte>, packets: seq<PacketDescriptor>): (r: Result<seq<Flow>>)
    ensures r.Ok? <==> forall i :: 0 <= i < |packets| ==> Readable(pcap, packets[i])
    ensures r.Ok? ==> |r.value| == |packets|
  {
    if |packets| == 0 then
      Ok([])
    else
      var n := |packets| - 1;
      var init := packets[..n];
      assert forall i :: 0 <= i < n ==> init[i] == packets[i];
      assert (forall i :: 0 <= i < |packets| ==> Readable(pcap, packets[i])) <==>
             (forall i :: 0 <= i < n ==> Readable(pcap, init[i])) && Readable(pcap, packets[n]) by {
        if forall i :: 0 <= i < n ==> Readable(pcap, init[i]) {
          assert forall i :: 0 <= i < n ==> Readable(pcap, packets[i]);
        }
      }
      var flows :- ExtractFlows(pcap, init);
      var last :- FlowOf(pcap, packets[n]);
      Ok(flows + [last])
  }

  /** `flows` lists, one for one, the flows of `packets`. */
  ghost predicate FlowsOf(pcap: seq<byte>, packets: seq<PacketDescriptor>, flows: seq<Flow>) {
    |flows| == |packets| && forall i :: 0 <= i < |packets| ==> FlowOf(pcap, packets[i]) == Ok(flows[i])
  }

  lemma FlowsOfSnoc(pcap: seq<byte>, packets: seq<PacketDescriptor>, flows: seq<Flow>, p: PacketDescriptor, f: Flow)
    requires FlowsOf(pcap, packets, flows) && FlowOf(pcap, p) == Ok(f)
    ensures FlowsOf(pcap, packets + [p], flows + [f])
  {
    assert forall i :: 0 <= i < |packets| ==> (packets + [p])[i] == packets[i] && (flows + [f])[i] == flows[i];
  }

  /** On success the i-th flow is the i-th packet's flow. */
  lemma {:induction false} ExtractFlowsPointwise(pcap: seq<byte>, packets: seq<PacketDescriptor>)
    requires ExtractFlows(pcap, packets).Ok?
    ensures FlowsOf(pcap, packets, ExtractFlows(pcap, packets).value)
  {
    if |packets| > 0 {
      var n := |packets| - 1;
      ExtractStep(pcap, packets);
      ExtractFlowsPointwise(pcap, packets[..n]);
      FlowsOfSnoc(pcap, packets[..n], ExtractFlows(pcap, packets[..n]).value, packets[n], FlowOf(pcap, packets[n]).value);
      assert packets[..n] + [packets[n]] == packets;
    }
  }

  /** `a` and then `b`: the first panic, or both results laid end to end. */
  function Then(a: Result<seq<Flow>>, b: Result<seq<Flow>>): Result<seq<Flow>> {
    match a
    case Panic(f) => Panic(f)
    case Ok(x) =>
      match b
      case Panic(f) => Panic(f)
      case Ok(y) => Ok(x + y)
  }

  /** A single flow, or its panic, as a run of flows. */
  function Single(r: Result<Flow>): Result<seq<Flow>> {
    match r
    case Panic(f) => Panic(f)
    case Ok(x) => Ok([x])
  }

  lemma ThenAssociates(a: Result<seq<Flow>>, b: Result<seq<Flow>>, c: Result<seq<Flow>>)
    ensures Then(Then(a, b), c) == Then(a, Then(b, c))
  {
    if a.Ok? && b.Ok? && c.Ok? {
      assert a.value + b.value + c.value == a.value + (b.value + c.value);
    }
  }

  lemma ExtractStep(pcap: seq<byte>, packets: seq<PacketDescriptor>)
    requires |packets| > 0
    ensures ExtractFlows(pcap, packets) == Then(ExtractFlows(pcap, packets[..|packets| - 1]), Single(FlowOf(pcap, packets[|packets| - 1])))
  {
  }

  /** Extracting from two runs of packets is extracting from each in turn. */
  lemma {:induction false} ExtractAppend(pcap: seq<byte>, a: seq<PacketDescriptor>, b: seq<PacketDescriptor>)
    ensures ExtractFlows(pcap, a + b) == Then(ExtractFlows(pcap, a), ExtractFlows(pcap, b))
    decreases |b|
  {
    var ra := ExtractFlows(pcap, a);
    if |b| == 0 {
      assert a + b == a;
      if ra.Ok? {
        assert ra.value + [] == ra.value;
      }
    } else {
      var binit := b[..|b| - 1];
      var last := Single(FlowOf(pcap, b[|b| - 1]));
      assert (a + b)[..|a + b| - 1] == a + binit;
      assert (a + b)[|a + b| - 1] == b[|b| - 1];
      ExtractStep(pcap, a + b);
      ExtractStep(pcap, b);
      ExtractAppend(pcap, a, binit);
      ThenAssociates(ra, ExtractFlows(pcap, binit), last);
    }
  }

  /**
   What a worker computes from its packets: the count of every
   (source, destination) pair among them, or the panic of the first packet
   whose addresses cannot be read.
   */
  function Tally(pcap: seq<byte>, packets: seq<PacketDescriptor>): (r: Result<Matrix>)
    ensures r.Ok? <==> forall i :: 0 <= i < |packets| ==> Readable(pcap, packets[i])
    ensures r.Panic? ==> ExtractFlows(pcap, packets) == Panic(r.fault)
    ensures r.Ok? ==> WellFormed(r.value)
    ensures r.Ok? ==> forall src, dst :: Lookup(r.value, src, dst) == multiset(ExtractFlows(pcap, packets).value)[Flow(src, dst)]
    ensures r.Ok? ==> TotalCount(r.value) == |packets|
  {
    var flows :- ExtractFlows(pcap, packets);
    CountTotal(flows);
    Ok(Count(flows))
  }

  /** A worker's outcome: the slice `packets[start..end]` panics when reversed or past the end. */
  function WorkerResult(pcap: seq<byte>, packets: seq<PacketDescriptor>, rg: Range): Result<Matrix> {
    if rg.start > rg.end || rg.end > |packets| then
      Panic(SliceOutOfRange(rg.start, rg.end, |packets|))
    else
      Tally(pcap, packets[rg.start..rg.end])
  }

  /** A packet whose addresses cannot be read after a readable prefix decides the outcome. */
  lemma ExtractStopsAt(pcap: seq<byte>, packets: seq<PacketDescriptor>, k: nat, f: Fault)
    requires k < |packets|
    requires ExtractFlows(pcap, packets[..k]).Ok?
    requires FlowOf(pcap, packets[k]) == Panic(f)
    ensures ExtractFlows(pcap, packets) == Panic(f)
  {
    assert packets[..k + 1][..k] == packets[..k];
    ExtractStep(pcap, packets[..k + 1]);
    ExtractAppend(pcap, packets[..k + 1], packets[k + 1..]);
    assert packets[..k + 1] + packets[k + 1..] == packets;
  }

  /** One more readable packet adds its flow to the flows and one to the matrix. */
  lemma ExtractContinues(pcap: seq<byte>, packets: seq<PacketDescriptor>, k: nat, f: Flow)
    requires k < |packets|
    requires ExtractFlows(pcap, packets[..k]).Ok?
    requires FlowOf(pcap, packets[k]) == Ok(f)
    ensures ExtractFlows(pcap, packets[..k + 1]) == Ok(ExtractFlows(pcap, packets[..k]).value + [f])
    ensures Count(ExtractFlows(pcap, packets[..k + 1]).value) == Accumulate(Count(ExtractFlows(pcap, packets[..k]).value), f)
  {
    assert packets[..k + 1][..k] == packets[..k];
    ExtractStep(pcap, packets[..k + 1]);
    CountSnoc(ExtractFlows(pcap, packets[..k]).value, f);
  }

  /** A worker's tally is the count of its extracted flows, or their panic. */
  lemma TallyExtract(pcap: seq<byte>, packets: seq<PacketDescriptor>)
    ensures ExtractFlows(pcap, packets).Ok? ==> Tally(pcap, packets) == Ok(Count(ExtractFlows(pcap, packets).value))
    ensures ExtractFlows(pcap, packets).Panic? ==> Tally(pcap, packets) == Panic(ExtractFlows(pcap, packets).fault)
  {
  }

  /** The worker closure: one pass over its slice, updating a private matrix per packet. */
  method RunWorker(pcap: seq<byte>, packets: seq<PacketDescriptor>, rg: Range) returns (r: Result<Matrix>)
    ensures r == WorkerResult(pcap, packets, rg)
  {
    if rg.start > rg.end || rg.end > |packets| {
      return Panic(SliceOutOfRange(rg.start, rg.end, |packets|));
    }
    var slice := packets[rg.start..rg.end];
    var m: Matrix := map[];
    for k := 0 to |slice|
      invariant ExtractFlows(pcap, slice[..k]).Ok?
      invariant m == Count(ExtractFlows(pcap, slice[..k]).value)
    {
      var flow := FlowOf(pcap, slice[k]);
      if flow.Panic? {
        ExtractStopsAt(pcap, slice, k, flow.fault);
        TallyExtract(pcap, slice);
        return Panic(flow.fault);
      }
      ExtractContinues(pcap, slice, k, flow.value);
      m := Accumulate(m, flow.value);
    }
    assert slice[..|slice|] == slice;
    TallyExtract(pcap, slice);
    return Ok(m);
  }

  /** The workers' matrices in join order, or the panic of the first worker that failed. */
  function JoinAll(pcap: seq<byte>, packets: seq<PacketDescriptor>, rs: seq<Range>): (r: Result<seq<Matrix>>)
    ensures r.Ok? ==> |r.value| == |rs|
  {
    if |rs| == 0 then
      Ok([])
    else
      var partials :- JoinAll(pcap, packets, rs[..|rs| - 1]);
      var last :- WorkerResult(pcap, packets, rs[|rs| - 1]);
      Ok(partials + [last])
  }

  /** The spawn / join / merge part of `main` over the given worker ranges. */
  function AggregateOver(pcap: seq<byte>, packets: seq<PacketDescriptor>, rs: seq<Range>): Result<Matrix> {
    var partials :- JoinAll(pcap, packets, rs);
    Ok(MergeAll(partials))
  }

  /** The aggregation as written: 16 workers with `1 + n / 16` packets each. */
  function Aggregate(pcap: seq<byte>, packets: seq<PacketDescriptor>): Result<Matrix> {
    AggregateOver(pcap, packets, WorkerRanges(|packets|))
  }

  /** The aggregation with each worker's start clamped to the number of packets. */
  function AggregateClamped(pcap: seq<byte>, packets: seq<PacketDescriptor>): Result<Matrix> {
    AggregateOver(pcap, packets, ClampedRanges(|packets|))
  }

  /** `rs` cuts `[0, m)` into consecutive, non-reversed ranges (and is empty when `m` is 0). */
  ghost predicate ChainTo(rs: seq<Range>, m: nat) {
    && (forall k :: 0 <= k < |rs| ==> rs[k].start <= rs[k].end)
    && (forall k :: 0 <= k < |rs| - 1 ==> rs[k].end == rs[k + 1].start)
    && (if |rs| == 0 then m == 0 else rs[0].start == 0 && rs[|rs| - 1].end == m)
  }

  /** The running merge after one more join: the first panic, or the two matrices merged. */
  function Combine(acc: Result<Matrix>, worker: Result<Matrix>): Result<Matrix> {
    match acc
    case Panic(f) => Panic(f)
    case Ok(x) =>
      match worker
      case Panic(f) => Panic(f)
      case Ok(y) => Ok(Merge(x, y))
  }

  lemma MergeAllSnoc(ms: seq<Matrix>, m: Matrix)
    ensures MergeAll(ms + [m]) == Merge(MergeAll(ms), m)
  {
    assert (ms + [m])[..|ms|] == ms;
  }

  /** Joining one more worker combines its result into the running merge. */
  lemma AggregateStep(pcap: seq<byte>, packets: seq<PacketDescriptor>, rs: seq<Range>)
    requires |rs| > 0
    ensures AggregateOver(pcap, packets, rs) ==
      Combine(AggregateOver(pcap, packets, rs[..|rs| - 1]), WorkerResult(pcap, packets, rs[|rs| - 1]))
  {
    var joined := JoinAll(pcap, packets, rs[..|rs| - 1]);
    var w := WorkerResult(pcap, packets, rs[|rs| - 1]);
    if joined.Ok? && w.Ok? {
      MergeAllSnoc(joined.value, w.value);
    }
  }

  /** Counting the first `m` packets is counting the first `mid` and the next ones, then merging. */
  lemma TallySplit(pcap: seq<byte>, packets: seq<PacketDescriptor>, mid: nat, m: nat)
    requires mid <= m <= |packets|
    ensures Tally(pcap, packets[..m]) == Combine(Tally(pcap, packets[..mid]), Tally(pcap, packets[mid..m]))
  {
    assert packets[..m] == packets[..mid] + packets[mid..m];
    ExtractAppend(pcap, packets[..mid], packets[mid..m]);
    var a, b := ExtractFlows(pcap, packets[..mid]), ExtractFlows(pcap, packets[mid..m]);
    if a.Ok? && b.Ok? {
      MergeCounts(a.value, b.value);
    }
  }

  /**
   Workers over consecutive ranges covering `[0, m)`, merged, give what one
   worker over the first `m` packets gives: the same matrix, or the same panic.
   */
  lemma {:induction false} ChainedWorkers(pcap: seq<byte>, packets: seq<PacketDescriptor>, rs: seq<Range>, m: nat)
    requires ChainTo(rs, m) && m <= |packets|
    ensures AggregateOver(pcap, packets, rs) == Tally(pcap, packets[..m])
    decreases |rs|
  {
    if |rs| == 0 {
      assert packets[..m] == [];
    } else {
      var init := rs[..|rs| - 1];
      var mid := rs[|rs| - 1].start;
      assert ChainTo(init, mid) by {
        if |init| > 0 {
          assert init[|init| - 1].end == rs[|rs| - 2].end;
        }
      }
      ChainedWorkers(pcap, packets, init, mid);
      AggregateStep(pcap, packets, rs);
      TallySplit(pcap, packets, mid, m);
    }
  }

  /** Over any tiling of the index, the merged matrix is the sequential count (or its panic). */
  lemma AggregateOverTiles(pcap: seq<byte>, packets: seq<PacketDescriptor>, rs: seq<Range>)
    requires Tiles(rs, |packets|)
    ensures AggregateOver(pcap, packets, rs) == Tally(pcap, packets)
  {
    ChainedWorkers(pcap, packets, rs, |packets|);
    assert packets[..|packets|] == packets;
  }

  /** The result does not depend on how the index is cut into ranges. */
  lemma AnyTilingAgrees(pcap: seq<byte>, packets: seq<PacketDescriptor>, rs1: seq<Range>, rs2: seq<Range>)
    requires Tiles(rs1, |packets|) && Tiles(rs2, |packets|)
    ensures AggregateOver(pcap, packets, rs1) == AggregateOver(pcap, packets, rs2)
  {
    AggregateOverTiles(pcap, packets, rs1);
    AggregateOverTiles(pcap, packets, rs2);
  }

  /**
   When every worker's slice is well formed, the parallel aggregation as
   written equals one sequential count over the whole index.
   */
  lemma AggregateMatchesSequential(pcap: seq<byte>, packets: seq<PacketDescriptor>)
    requires (NTHREADS - 1) * ChunkSize(|packets|) <= |packets|
    ensures Aggregate(pcap, packets) == Tally(pcap, packets)
  {
    WorkerRangesTile(|packets|);
    AggregateOverTiles(pcap, packets, WorkerRanges(|packets|));
  }

  /** A failing worker anywhere makes the join loop panic. */
  lemma {:induction false} JoinAllPanics(pcap: seq<byte>, packets: seq<PacketDescriptor>, rs: seq<Range>, k: nat)
    requires k < |rs|
    requires WorkerResult(pcap, packets, rs[k]).Panic?
    ensures JoinAll(pcap, packets, rs).Panic?
    decreases |rs|
  {
    if k < |rs| - 1 {
      JoinAllPanics(pcap, packets, rs[..|rs| - 1], k);
    }
  }

  /** Otherwise the last worker's slice is reversed and the aggregation as written panics. */
  lemma AggregatePanicsOnReversedSlice(pcap: seq<byte>, packets: seq<PacketDescriptor>)
    requires (NTHREADS - 1) * ChunkSize(|packets|) > |packets|
    ensures Aggregate(pcap, packets).Panic?
  {
    var rs := WorkerRanges(|packets|);
    assert rs[NTHREADS - 1].start > rs[NTHREADS - 1].end;
    JoinAllPanics(pcap, packets, rs, NTHREADS - 1);
  }

  /** With clamped starts, the aggregation equals the sequential count for every index. */
  lemma AggregateClampedMatchesSequential(pcap: seq<byte>, packets: seq<PacketDescriptor>)
    ensures AggregateClamped(pcap, packets) == Tally(pcap, packets)
  {
    ClampedRangesTile(|packets|);
    AggregateOverTiles(pcap, packets, ClampedRanges(|packets|));
  }
}
