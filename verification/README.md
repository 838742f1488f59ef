# cappy: capture reader and traffic aggregation, modelled in Dafny

cappy reads a libpcap capture file, checks its global header, and builds an
index with one descriptor per record. It hands the record offsets to a GPU
filter kernel and then, on the CPU, counts packets per (source IPv4,
destination IPv4) pair. That count runs on 16 worker threads, each over its
own range of the index, and the workers' maps are merged into one traffic
matrix.

This project models that core as pure functions over byte sequences:

- `results.dfy` (module `Results`): every Rust panic the core can raise is a
  `Panic(fault)` value. These are an out-of-range slice, an out-of-range
  index, a failed `assert!` on the magic number and a failed `assert!` on the
  FCS nibble. `:-` propagates them the way an unwinding panic leaves the rest
  of the code unrun.
- `bytes.dfy` (module `Bytes`): little-endian decoding and encoding of fixed
  width integers, with both round trips proved, and sequence reversal.
- `reader.dfy` (module `Reader`): `read_u32`, `read_u16`, `read_packet`,
  `read_header` and `build_packet_index`. The scan is a recursive function
  `IndexFrom` plus a `while` loop proved equal to it. Its results are
  characterised by the independent predicate `ValidIndex`: a chain of record
  headers from byte 24 to or past the end of the buffer.
- `traffic.dfy` (module `Traffic`): the per-worker map (`Accumulate`,
  `Count`) and the merge of two maps. The merge is written both as a function
  (`Merge`) and as the nested loops of the source (`MergeInto`,
  `MergeRowInto`). The reference semantics is a multiset of flows: a count
  equals that flow's multiplicity.
- `partition.dfy` (module `Partition`): the split of `n` packets among 16
  workers, `1 + n / 16` per worker, and when that split tiles `0..n`.
- `aggregation.dfy` (module `Aggregation`): address extraction, one worker
  over its slice, joining the workers in order and merging their maps.
- `pipeline.dfy` (module `Pipeline`): the sequential skeleton of `main`.

The host is taken to be a 64-bit little-endian machine: `from_ne_bytes`
reads little-endian, `to_be` swaps bytes, and `usize` arithmetic cannot
wrap for any capture that fits in memory, so integers are unbounded.

Three behaviours of the code that a reader might not expect; the model follows the code:

- **Final record.** A final record whose captured bytes run past the end of
  the buffer is accepted into the index, not rejected as truncated. The scan
  only stops when the cursor reaches or passes the end
  (`Reader.FinalRecordMayOverrun`).
- **Filter results.** The traffic matrix counts every indexed packet. The
  kernel's per-packet results only feed the printed pass count
  (`Pipeline.RunIgnoresFilter`).
- **Chunk size.** The chunk size is `1 + n / 16` (floor division plus one),
  not the ceiling of `n / 16`. The start index is not clamped to `n` (see
  Findings).

## Model

| member | source | states |
|---|---|---|
| Reader.ReadU32 | src/reader.rs:10-14 | succeeds exactly when the 4-byte slice fits in the buffer; the value's little-endian encoding is that slice; otherwise the slice-out-of-range panic for `offset..offset+4` |
| Reader.ReadU16 | src/reader.rs:16-20 | the same for the 2-byte slice |
| Bytes.DecodeEncode | src/reader.rs:13 | decoding the little-endian encoding of any `v < 256^n` in `n` bytes gives back `v` |
| Bytes.EncodeDecode | src/reader.rs:12-13 | encoding the decoded value of a byte string reproduces the byte string |
| Reader.ReadPacket | src/reader.rs:22-38 | succeeds exactly when the 16-byte record header fits; the descriptor keeps the offset, each field encodes its 4 header bytes, and the next offset is `offset + 16 + cap_len`; otherwise a slice panic that ends past the buffer |
| Reader.ReadPacketDescribed | src/reader.rs:22-38 | a descriptor whose four fields are stored at its offset is read back exactly, with its successor offset |
| Reader.ReadHeader | src/reader.rs:40-57 | succeeds exactly when the buffer has 21 bytes, its first four are the magic `D4 C3 B2 A1` and byte 20 is below 16; a wrong magic is a magic-mismatch panic; a set FCS nibble panics with `pcap[20] / 16`; major and minor encode bytes 4..6 and 6..8 |
| Reader.MagicBytesExact | src/reader.rs:41-42 | a 32-bit value equals `0xA1B2C3D4` exactly when its little-endian bytes are `D4 C3 B2 A1` |
| Reader.IndexFrom | src/reader.rs:62-67 | no contract of its own: the scan from a cursor; `ChainedScan` shows it reads any chain of stored headers starting there, `ScanChained` that every result is such a chain ending at or past the end of the buffer, `ScanFailsAtStraddlingHeader` that a panic means the chain reached a header straddling the end |
| Reader.BuildIndex | src/reader.rs:59-69 | a successful scan is a valid index; a buffer of at most 24 bytes gives the empty index |
| Reader.BuildPacketIndex | src/reader.rs:59-69 | the `while` loop returns the scan's result, and on success a valid index |
| Reader.BuildIndexExact | src/reader.rs:59-69 | the scan returns `index` if and only if `index` is a chain of stored record headers from byte 24 whose cursor ends at or past the buffer's end |
| Reader.BuildIndexFails | src/reader.rs:63-66 | the scan panics if and only if the chain reaches a record header that starts inside the buffer and runs past its end; then no valid index exists |
| Reader.ChainedScan | src/reader.rs:63-66 | scanning from the start of a chain reads the chain's records and then continues from where the chain ends |
| Reader.ScanChained | src/reader.rs:63-67 | whatever the scan returns is a chain whose cursor ends at or past the end of the buffer |
| Reader.IndexOrdered | src/reader.rs:63-67 | in a valid index, offsets increase by at least 16 per record, and every record but the last ends inside the buffer |
| Reader.ChainTiles | src/reader.rs:36 | a chain ends exactly its records' total length (16 + `cap_len` each) after its start |
| Reader.FinalRecordMayOverrun | src/reader.rs:63-66 | a capture with one record header whose `cap_len` runs past the end is indexed as one packet whose successor offset lies past the buffer |
| Partition.ChunkSize | src/main.rs:56 | `per` is the least number with `16 * per > n` |
| Partition.WorkerRangesTile | src/main.rs:71-74 | when `15 * per <= n`, the 16 ranges `[i * per, min(i * per + per, n))` tile `0..n` in order |
| Partition.TilesPartition | src/main.rs:71-78 | ranges that tile `0..n` put every index in exactly one range and nothing outside `0..n` |
| Partition.WorkerSlicesValid | src/main.rs:56-78 | every worker's slice has `start <= end` if and only if `15 * per <= n`, which holds if and only if `n / 16 + n % 16 >= 15` |
| Partition.LargeIndexSafe | src/main.rs:56-74 | from 240 packets upward every slice is well formed |
| Partition.WorkerRangesAt100 | src/main.rs:56-78 | with 100 packets the chunk is 7 and worker 15 gets the reversed slice `105..100` |
| Partition.WorkerRangesAtZero | src/main.rs:56-78 | with no packets worker 1 gets the reversed slice `1..0` |
| Partition.ClampedRangesTile | src/main.rs:71-74 | with the start also clamped to `n`, the 16 ranges tile `0..n` for every `n` |
| Partition.ClampedAgrees | src/main.rs:73-74 | where the source's ranges are well formed, clamping changes nothing |
| Aggregation.ToBigEndian | src/main.rs:80 | `to_be` on a little-endian host: the 4-byte little-endian encoding of the result is that of the input reversed |
| Aggregation.AddrFromBits | src/main.rs:79-81 | `Ipv4Addr::from(u32)`: the octets, read back to front as a little-endian number, give the value, so the first octet is the most significant byte |
| Aggregation.SwapsCancel | src/main.rs:79-84 | `Ipv4Addr::from(read_u32(..).to_be())` on a little-endian host has the four buffer bytes as octets in buffer order, and panics exactly as the read does |
| Aggregation.ReadAddress | src/main.rs:79-84 | succeeds exactly when the 4 bytes fit; otherwise the slice panic of the read |
| Aggregation.FlowOf | src/main.rs:79-84 | a packet's two addresses are read without panic exactly when the buffer holds at least `offset + 50` bytes (16 record-header, 14 Ethernet and 20 IPv4 bytes) |
| Aggregation.FlowOfReads | src/main.rs:58-84 | source and destination are the bytes at `offset + 42` and `offset + 46`; an overrun panics on the source read first, then on the destination read |
| Aggregation.ExtractFlows | src/main.rs:78-84 | extraction succeeds exactly when every packet is readable, and then yields one flow per packet |
| Aggregation.ExtractFlowsPointwise | src/main.rs:78-84 | the i-th extracted flow is the i-th packet's flow |
| Aggregation.ExtractAppend | src/main.rs:78-92 | extracting two runs of packets is extracting each and concatenating, with the first panic winning |
| Traffic.Accumulate | src/main.rs:85-91 | one packet adds exactly one to its (source, destination) count and changes no other count; its source gains a row; rows stay non-empty and counts positive |
| Traffic.Count | src/main.rs:77-93 | a worker's map holds, for every pair, the number of times that flow occurs in its input |
| Traffic.CountKeys | src/main.rs:85-87 | a source has a row exactly when it sends some packet |
| Traffic.CountTotal | src/main.rs:77-93 | the counts in a worker's map add up to the number of packets it saw |
| Aggregation.Tally | src/main.rs:76-93 | a worker succeeds exactly when every packet is readable; its counts are the flows' multiplicities and add up to its packet count; otherwise the first unreadable packet's panic |
| Aggregation.RunWorker | src/main.rs:72-94 | the worker's loop over `packets[start..end]` returns the tally of that slice, or the slice panic when `start > end` or `end > len` |
| Traffic.Merge | src/main.rs:100-110 | the merged map has every source of either input, and each count is the sum of the two counts |
| Traffic.MergeWellFormed | src/main.rs:100-110 | merging keeps rows non-empty and counts positive |
| Traffic.MergeCommutes | src/main.rs:97-111 | the merge does not depend on which map comes first |
| Traffic.MergeAssociates | src/main.rs:97-111 | the merge does not depend on grouping, so the join order only matters for which panic wins |
| Traffic.MergeEmpty | src/main.rs:97 | merging into the initial empty map gives the worker's map |
| Traffic.MergeCounts | src/main.rs:97-111 | merging the counts of two inputs is the count of their concatenation |
| Traffic.MergeRowInto | src/main.rs:104-109 | the inner loop adds each destination's count into the row and leaves the others |
| Traffic.MergeInto | src/main.rs:100-110 | the loop over the worker's sources, taken in any order, produces the merge |
| Traffic.MergePartials | src/main.rs:97-111 | folding the workers' maps in join order gives the sum of all of them |
| Traffic.MergeAll | src/main.rs:97-111 | the merged map has a row for a source exactly when some worker's map has one, and each count is the sum over the workers |
| Traffic.MergeAllCounts | src/main.rs:70-111 | merging the counts of consecutive chunks is the count of their concatenation |
| Aggregation.ChainedWorkers | src/main.rs:70-111 | workers over consecutive ranges covering `0..m`, joined and merged, give the tally of the first `m` packets |
| Aggregation.AnyTilingAgrees | src/main.rs:70-111 | any two ways of tiling the index among workers give the same outcome |
| Aggregation.Aggregate | src/main.rs:56-111 | no contract of its own: the 16-worker aggregation as written; `AggregateMatchesSequential` and `AggregatePanicsOnReversedSlice` state its outcome for every index (the sequential tally when `15 * per <= n`, a panic otherwise) |
| Aggregation.AggregateMatchesSequential | src/main.rs:56-111 | when `15 * per <= n`, the 16-thread aggregation equals one sequential pass over all packets |
| Aggregation.AggregatePanicsOnReversedSlice | src/main.rs:56-99 | when `15 * per > n`, some worker's slice is reversed and the aggregation panics at `join().expect` |
| Aggregation.AggregateClampedMatchesSequential | src/main.rs:71-111 | with the start clamped, the aggregation equals one sequential pass for every index |
| Pipeline.Run | src/main.rs:40-111 | no contract of its own: header check, index, pass count and aggregation in the order of `main`, the first panic ending the run; `RunCountsEveryPacket` and `RunIgnoresFilter` state what a completed run computes |
| Pipeline.PassCount | src/main.rs:52 | the sum is at most the number of results times `2^32 - 1`; it is 0 exactly when every result is 0; when every result is 0 or 1 it is the number of 1s, i.e. the packets the kernel passed |
| Pipeline.PassCountAppend | src/main.rs:52 | the pass count of two batches of results is the sum of their pass counts |
| Pipeline.RunCountsEveryPacket | src/main.rs:40-111 | a completed run checked the header and built a valid index; its matrix is the multiset of all indexed packets' flows and its counts add up to the packet count |
| Pipeline.RunIgnoresFilter | src/main.rs:48-52 | the kernel's results decide neither whether the run completes nor its matrix and packet count |
| Pipeline.ThreeFlowsCount | src/main.rs:85-91 | two packets 10.0.0.1 -> 10.0.0.2 and one 10.0.0.1 -> 10.0.0.3 give one row, for 10.0.0.1, with counts 2 and 1, and count 0 for 10.0.0.1 -> 10.0.0.1 |
| Pipeline.ThreePacketsPanic | src/main.rs:56-78 | an index of three packets makes the aggregation panic |

## Left out

- The filter kernel (`cappy_main`, a foreign CUDA function) is not modelled. Its per-packet result vector is a parameter of `Pipeline.Run`, and only its sum is used.
- `Pipeline.PassCount`: the sum is unbounded; the source sums into a `u64`, which cannot overflow for fewer than 2^32 packets.
- Memory mapping, the command line (`clap`), file opening, timers and every `println!` are not modelled: they are I/O.
- The version and FCS printing in `read_header` is left out; only its checks are modelled.
- Threads, `Arc` and `join` are a sequential pass over the 16 ranges in join order. The first worker (in join order) that panics decides the panic. Interleavings are not modelled because workers share nothing mutable.
- `HashMap` iteration order is any order: `MergeInto` picks keys nondeterministically, and its contract holds for every choice.
- `usize` arithmetic (`offset + 16 + cap_len`, `i * per`) is unbounded in the model, which is exact on a 64-bit host. On a 32-bit host `offset + 16 + cap_len as usize` (src/reader.rs:36) overflows for a `cap_len` near 2^32 in a file of a few dozen bytes: a debug build panics there, a release build wraps and the scan moves backwards. 32-bit hosts are not modelled.
- The lookup of the fixed address `192.168.68.110` after the merge (src/main.rs:114-115) is outside the modelled core. Its `unwrap` panics when that address sent nothing.
- The commented-out debugging loop (src/main.rs:62-67) and `build.rs` are not part of this model.
- The host byte order is fixed to little-endian. On a big-endian host `from_ne_bytes` reads big-endian, so the magic check accepts captures written big-endian (first bytes `A1 B2 C3 D4`) and rejects little-endian ones; on the modelled little-endian host it is the other way round, as `ReadHeader` states. Big-endian hosts are not modelled.

## Findings

| source | as written | input that shows it | evidently intended | confidence | as-written member | corrected member |
|---|---|---|---|---|---|---|
| src/main.rs:56-78 | `per = 1 + n / 16` and worker `i` takes `packets[i * per..min(i * per + per, n)]` with the start not clamped to `n` | an index of 100 packets: `per = 7` and worker 15 gets `packets[105..100]`, which panics; likewise 0 packets (worker 1 gets `1..0`) and 3 packets; in general every `n` with `n / 16 + n % 16 < 15` | every packet handled by exactly one worker for any number of packets | not executed | Aggregation.AggregatePanicsOnReversedSlice (all inputs, with Partition.WorkerSlicesValid); example Partition.WorkerRangesAt100 | Aggregation.AggregateClampedMatchesSequential |
