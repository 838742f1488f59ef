/**
 The sequential skeleton of `main`: check the global header, build the
 packet index, record the filter kernel's pass count, aggregate.

 The filter kernel is foreign code; its result vector is a parameter here.
 It only feeds the pass count: the traffic matrix counts every packet.
 */
module Pipeline {
  import opened Results
  import opened Bytes
  import opened Reader
  import opened Traffic
  import opened Partition
  import opened Aggregation

  /** What one run computes: packet count, kernel pass count, traffic matrix. */
  datatype Report = Report(npackets: nat, npassed: nat, matrix: Matrix)

  /**
   `npassed`: the kernel's per-packet results added up. When the kernel
   answers 0 or 1 per packet, this is the number of packets it passed.
   */
  function PassCount(results: seq<u32>): (total: nat)
    ensures total <= |results| * 0xFFFF_FFFF
    ensures total == 0 <==> forall i :: 0 <= i < |results| ==> results[i] == 0
    ensures (forall i :: 0 <= i < |results| ==> results[i] <= 1) ==> total == multiset(results)[1]
  {
    if |results| == 0 then
      0
    else
      var init := results[..|results| - 1];
      assert results == init + [results[|results| - 1]];
      assert forall i :: 0 <= i < |init| ==> init[i] == results[i];
      PassCount(init) + results[|results| - 1]
  }

  /** The pass count of two batches of results is the sum of their pass counts. */
  lemma {:induction false} PassCountAppend(a: seq<u32>, b: seq<u32>)
    ensures PassCount(a + b) == PassCount(a) + PassCount(b)
    decreases |b|
  {
    if |b| > 0 {
      var binit := b[..|b| - 1];
      assert (a + b)[..|a + b| - 1] == a + binit;
      assert (a + b)[|a + b| - 1] == b[|b| - 1];
      PassCountAppend(a, binit);
    } else {
      assert a + b == a;
    }
  }

  /** `main` from the header check to the merged matrix; `kernelResults` is what the filter kernel returned. */
  function Run(pcap: seq<byte>, kernelResults: seq<u32>): Result<Report> {
    var version :- ReadHeader(pcap);
    var index :- BuildIndex(pcap);
    var matrix :- Aggregate(pcap, index);
    Ok(Report(|index|, PassCount(kernelResults), matrix))
  }

  /** A completed run passed every stage, and its matrix is the aggregation of the whole index. */
  lemma RunStages(pcap: seq<byte>, kernelResults: seq<u32>)
    requires Run(pcap, kernelResults).Ok?
    ensures ReadHeader(pcap).Ok? && BuildIndex(pcap).Ok?
    ensures Aggregate(pcap, BuildIndex(pcap).value) == Ok(Run(pcap, kernelResults).value.matrix)
    ensures Run(pcap, kernelResults).value.npackets == |BuildIndex(pcap).value|
  {
  }

  /**
   A run that completes has checked the header, indexed the whole capture,
   and counted every indexed packet exactly once under its (source,
   destination) pair.
   */
  lemma RunCountsEveryPacket(pcap: seq<byte>, kernelResults: seq<u32>)
    requires Run(pcap, kernelResults).Ok?
    ensures ReadHeader(pcap).Ok?
    ensures BuildIndex(pcap).Ok? && ValidIndex(pcap, BuildIndex(pcap).value)
    ensures Run(pcap, kernelResults).value.npackets == |BuildIndex(pcap).value|
    ensures Tally(pcap, BuildIndex(pcap).value) == Ok(Run(pcap, kernelResults).value.matrix)
    ensures TotalCount(Run(pcap, kernelResults).value.matrix) == Run(pcap, kernelResults).value.npackets
    ensures forall src, dst ::
              Lookup(Run(pcap, kernelResults).value.matrix, src, dst)
              == multiset(ExtractFlows(pcap, BuildIndex(pcap).value).value)[Flow(src, dst)]
  {
    RunStages(pcap, kernelResults);
    var index := BuildIndex(pcap).value;
    var matrix := Run(pcap, kernelResults).value.matrix;
    TallyOfRun(pcap, index, matrix);
  }

  /** An aggregation that succeeded equals the sequential tally. */
  lemma TallyOfRun(pcap: seq<byte>, index: seq<PacketDescriptor>, matrix: Matrix)
    requires Aggregate(pcap, index) == Ok(matrix)
    ensures Tally(pcap, index) == Ok(matrix)
  {
    if (NTHREADS - 1) * ChunkSize(|index|) > |index| {
      AggregatePanicsOnReversedSlice(pcap, index);
    }
    AggregateMatchesSequential(pcap, index);
  }

  /** The kernel's results never change whether a run completes, nor its matrix. */
  lemma RunIgnoresFilter(pcap: seq<byte>, results1: seq<u32>, results2: seq<u32>)
    ensures Run(pcap, results1).Ok? <==> Run(pcap, results2).Ok?
    ensures Run(pcap, results1).Ok? ==> Run(pcap, results1).value.matrix == Run(pcap, results2).value.matrix
    ensures Run(pcap, results1).Ok? ==> Run(pcap, results1).value.npackets == Run(pcap, results2).value.npackets
  {
  }

  /** Three packets are too few for 16 workers of `1 + 3 / 16` packets: the run panics. */
  lemma ThreePacketsPanic(pcap: seq<byte>, packets: seq<PacketDescriptor>)
    requires |packets| == 3
    ensures Aggregate(pcap, packets).Panic?
  {
    AggregatePanicsOnReversedSlice(pcap, packets);
  }

  /** Counting two flows 10.0.0.1 -> 10.0.0.2 and one 10.0.0.1 -> 10.0.0.3. */
  lemma ThreeFlowsCount()
    ensures
      var a: Ipv4, b: Ipv4, c: Ipv4 := [10, 0, 0, 1], [10, 0, 0, 2], [10, 0, 0, 3];
      var m := Count([Flow(a, b), Flow(a, b), Flow(a, c)]);
      m.Keys == {a} && Lookup(m, a, b) == 2 && Lookup(m, a, c) == 1 && Lookup(m, a, a) == 0
  {
    var a: Ipv4, b: Ipv4, c: Ipv4 := [10, 0, 0, 1], [10, 0, 0, 2], [10, 0, 0, 3];
    var flows := [Flow(a, b), Flow(a, b), Flow(a, c)];
    assert multiset(flows) == multiset{Flow(a, b), Flow(a, b), Flow(a, c)};
    OneSender(flows, a);
  }

  /** Flows that all leave `src` give a matrix with the single row `src`. */
  lemma OneSender(flows: seq<Flow>, src: Ipv4)
    requires |flows| > 0
    requires forall i :: 0 <= i < |flows| ==> flows[i].src == src
    ensures Count(flows).Keys == {src}
  {
    CountKeys(flows, src);
    forall s | s in Count(flows) ensures s == src {
      CountKeys(flows, s);
    }
  }
}
