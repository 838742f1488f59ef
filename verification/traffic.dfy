/**
 Traffic matrices: source address -> destination address -> number of
 packets, as built by each worker and merged by the coordinating thread.

 `Lookup` reads a matrix with absent entries counted as zero; it is the view
 in which accumulation and merging are stated.
 */
module Traffic {
  import opened Bytes

  /** An IPv4 address as its four octets in network order. */
  type Ipv4 = s: seq<byte> | |s| == 4 witness [0, 0, 0, 0]

  /** The (source, destination) pair of one packet. */
  datatype Flow = Flow(src: Ipv4, dst: Ipv4)

  type Row = map<Ipv4, nat>
  type Matrix = map<Ipv4, Row>

  /** The destination counts of `src`, empty when `src` has none. */
  function RowOf(m: Matrix, src: Ipv4): Row {
    if src in m then m[src] else map[]
  }

  /** The count for `dst` in `row`, zero when absent. */
  function CountIn(row: Row, dst: Ipv4): nat {
    if dst in row then row[dst] else 0
  }

  /** The count for `src -> dst` in `m`, zero when absent. */
  function Lookup(m: Matrix, src: Ipv4, dst: Ipv4): nat {
    CountIn(RowOf(m, src), dst)
  }

  /** Every row present is non-empty and every count present is positive. */
  ghost predicate WellFormed(m: Matrix) {
    && (forall src :: src in m ==> m[src] != map[])
    && (forall src, dst :: src in m && dst in m[src] ==> m[src][dst] > 0)
  }

  /** Matrices of the same shape with the same counts are equal. */
  lemma SameShapeEqual(a: Matrix, b: Matrix)
    requires a.Keys == b.Keys
    requires forall src :: src in a ==> a[src].Keys == b[src].Keys
    requires forall src, dst :: Lookup(a, src, dst) == Lookup(b, src, dst)
    ensures a == b
  {
    forall src | src in a
      ensures a[src] == b[src]
    {
      forall dst | dst in a[src]
        ensures a[src][dst] == b[src][dst]
      {
        assert Lookup(a, src, dst) == Lookup(b, src, dst);
      }
    }
  }

  /** Well-formed matrices are equal as soon as they agree on every count. */
  lemma WellFormedEqual(a: Matrix, b: Matrix)
    requires WellFormed(a) && WellFormed(b)
    requires forall src, dst :: Lookup(a, src, dst) == Lookup(b, src, dst)
    ensures a == b
  {
    forall src | src in a
      ensures src in b
    {
      var dst :| dst in a[src];
      assert Lookup(a, src, dst) > 0;
    }
    forall src | src in b
      ensures src in a
    {
      var dst :| dst in b[src];
      assert Lookup(b, src, dst) > 0;
    }
    forall src | src in a
      ensures a[src].Keys == b[src].Keys
    {
      forall dst | dst in a[src]
        ensures dst in b[src]
      {
        assert Lookup(a, src, dst) > 0;
      }
      forall dst | dst in b[src]
        ensures dst in a[src]
      {
        assert Lookup(b, src, dst) > 0;
      }
    }
    SameShapeEqual(a, b);
  }

  /**
   One step of a worker: make sure `src` has a row, then add one to the count
   of `dst` in it.
   */
  function Accumulate(m: Matrix, f: Flow): (r: Matrix)
    ensures r.Keys == m.Keys + {f.src}
    ensures forall src, dst :: Lookup(r, src, dst) == Lookup(m, src, dst) + (if Flow(src, dst) == f then 1 else 0)
    ensures WellFormed(m) ==> WellFormed(r)
  {
    var row := RowOf(m, f.src);
    var r := m[f.src := row[f.dst := CountIn(row, f.dst) + 1]];
    assert forall src, dst :: Lookup(r, src, dst) == Lookup(m, src, dst) + (if Flow(src, dst) == f then 1 else 0) by {
      forall src, dst
        ensures Lookup(r, src, dst) == Lookup(m, src, dst) + (if Flow(src, dst) == f then 1 else 0)
      {
        if src != f.src {
          assert RowOf(r, src) == RowOf(m, src);
        }
      }
    }
    assert WellFormed(m) ==> WellFormed(r) by {
      if WellFormed(m) {
        assert f.dst in r[f.src];
      }
    }
    r
  }

  /** A worker's matrix after it has seen `flows`, in order, starting from an empty map. */
  function Count(flows: seq<Flow>): (m: Matrix)
    ensures WellFormed(m)
    ensures forall src, dst :: Lookup(m, src, dst) == multiset(flows)[Flow(src, dst)]
  {
    if |flows| == 0 then
      map[]
    else
      var init := flows[..|flows| - 1];
      assert flows == init + [flows[|flows| - 1]];
      Accumulate(Count(init), flows[|flows| - 1])
  }

  /** A worker step on top of a count is the count of the longer input. */
  lemma CountSnoc(flows: seq<Flow>, f: Flow)
    ensures Count(flows + [f]) == Accumulate(Count(flows), f)
  {
    assert (flows + [f])[..|flows|] == flows;
  }

  /** A source has a row in `Count(flows)` exactly when it sends some flow. */
  lemma CountKeys(flows: seq<Flow>, src: Ipv4)
    ensures src in Count(flows) <==> exists i :: 0 <= i < |flows| && flows[i].src == src
  {
    var m := Count(flows);
    if src in m {
      var dst :| dst in m[src];
      assert Lookup(m, src, dst) > 0;
      assert Flow(src, dst) in flows;
    }
    if i :| 0 <= i < |flows| && flows[i].src == src {
      assert Lookup(m, src, flows[i].dst) > 0;
    }
  }

  /** The destination counts of one source in two matrices added together. */
  function MergeRow(x: Row, y: Row): (r: Row)
    ensures r.Keys == x.Keys + y.Keys
    ensures forall dst :: CountIn(r, dst) == CountIn(x, dst) + CountIn(y, dst)
  {
    map dst | dst in x.Keys + y.Keys :: CountIn(x, dst) + CountIn(y, dst)
  }

  /**
   Two matrices added entry by entry: every source of either gets a row, and
   every count is the sum of the two counts, absent ones read as zero.
   */
  function Merge(a: Matrix, b: Matrix): (m: Matrix)
    ensures m.Keys == a.Keys + b.Keys
    ensures forall src, dst :: Lookup(m, src, dst) == Lookup(a, src, dst) + Lookup(b, src, dst)
  {
    map src | src in a.Keys + b.Keys :: MergeRow(RowOf(a, src), RowOf(b, src))
  }

  /** Merging keeps rows non-empty and counts positive. */
  lemma MergeWellFormed(a: Matrix, b: Matrix)
    requires WellFormed(a) && WellFormed(b)
    ensures WellFormed(Merge(a, b))
  {
    var m := Merge(a, b);
    forall src | src in m
      ensures m[src] != map[]
    {
      if src in a {
        var dst :| dst in a[src];
        assert dst in m[src];
      } else {
        var dst :| dst in b[src];
        assert dst in m[src];
      }
    }
  }

  lemma MergeCommutes(a: Matrix, b: Matrix)
    ensures Merge(a, b) == Merge(b, a)
  {
    forall src | src in Merge(a, b)
      ensures Merge(a, b)[src].Keys == Merge(b, a)[src].Keys
    {
      MergeCommutesRow(a, b, src);
    }
    SameShapeEqual(Merge(a, b), Merge(b, a));
  }

  lemma MergeCommutesRow(a: Matrix, b: Matrix, src: Ipv4)
    ensures RowOf(Merge(a, b), src).Keys == RowOf(Merge(b, a), src).Keys
  {
    MergeRowKeys(a, b, src);
    MergeRowKeys(b, a, src);
  }

  /** The row of a source in a merge joins its rows in both inputs, present or not. */
  lemma MergeRowKeys(a: Matrix, b: Matrix, src: Ipv4)
    ensures RowOf(Merge(a, b), src).Keys == RowOf(a, src).Keys + RowOf(b, src).Keys
  {
  }

  /** Rows of the two groupings of a three-way merge have the same destinations. */
  lemma MergeAssociatesRow(a: Matrix, b: Matrix, c: Matrix, src: Ipv4)
    ensures RowOf(Merge(Merge(a, b), c), src).Keys == RowOf(Merge(a, Merge(b, c)), src).Keys
  {
    MergeLeftRow(a, b, c, src);
    MergeRightRow(a, b, c, src);
  }

  lemma MergeLeftRow(a: Matrix, b: Matrix, c: Matrix, src: Ipv4)
    ensures RowOf(Merge(Merge(a, b), c), src).Keys == RowOf(a, src).Keys + RowOf(b, src).Keys + RowOf(c, src).Keys
  {
    MergeRowKeys(a, b, src);
    MergeRowKeys(Merge(a, b), c, src);
  }

  lemma MergeRightRow(a: Matrix, b: Matrix, c: Matrix, src: Ipv4)
    ensures RowOf(Merge(a, Merge(b, c)), src).Keys == RowOf(a, src).Keys + RowOf(b, src).Keys + RowOf(c, src).Keys
  {
    MergeRowKeys(b, c, src);
    MergeRowKeys(a, Merge(b, c), src);
    var ra, rb, rc := RowOf(a, src).Keys, RowOf(b, src).Keys, RowOf(c, src).Keys;
    assert ra + (rb + rc) == ra + rb + rc;
  }

  lemma MergeAssociates(a: Matrix, b: Matrix, c: Matrix)
    ensures Merge(Merge(a, b), c) == Merge(a, Merge(b, c))
  {
    var left, right := Merge(Merge(a, b), c), Merge(a, Merge(b, c));
    forall src | src in left
      ensures left[src].Keys == right[src].Keys
    {
      MergeAssociatesRow(a, b, c, src);
    }
    SameShapeEqual(Merge(Merge(a, b), c), Merge(a, Merge(b, c)));
  }

  /** The empty matrix is the identity of merging. */
  lemma MergeEmpty(m: Matrix)
    ensures Merge(map[], m) == m
  {
    forall src | src in m
      ensures Merge(map[], m)[src].Keys == m[src].Keys
    {
      MergeRowKeys(map[], m, src);
    }
    SameShapeEqual(Merge(map[], m), m);
  }

  /** Merging two workers' matrices gives the matrix of one worker that saw both inputs. */
  lemma MergeCounts(xs: seq<Flow>, ys: seq<Flow>)
    ensures Merge(Count(xs), Count(ys)) == Count(xs + ys)
  {
    assert multiset(xs + ys) == multiset(xs) + multiset(ys);
    MergeWellFormed(Count(xs), Count(ys));
    WellFormedEqual(Merge(Count(xs), Count(ys)), Count(xs + ys));
  }

  /** The partial matrices merged one after another into an initially empty map. */
  function MergeAll(ms: seq<Matrix>): (m: Matrix)
    ensures forall src :: src in m <==> exists i :: 0 <= i < |ms| && src in ms[i]
    ensures forall src, dst :: Lookup(m, src, dst) == SumLookup(ms, src, dst)
  {
    if |ms| == 0 then
      map[]
    else
      var init := ms[..|ms| - 1];
      assert forall i :: 0 <= i < |init| ==> init[i] == ms[i];
      Merge(MergeAll(init), ms[|ms| - 1])
  }

  /** The counts for `src -> dst` in all of `ms`, added up. */
  function SumLookup(ms: seq<Matrix>, src: Ipv4, dst: Ipv4): nat {
    if |ms| == 0 then 0 else SumLookup(ms[..|ms| - 1], src, dst) + Lookup(ms[|ms| - 1], src, dst)
  }

  /** The matrices a worker builds from each chunk of flows. */
  function CountEach(chunks: seq<seq<Flow>>): (ms: seq<Matrix>)
    ensures |ms| == |chunks|
    ensures forall i :: 0 <= i < |chunks| ==> ms[i] == Count(chunks[i])
  {
    if |chunks| == 0 then [] else CountEach(chunks[..|chunks| - 1]) + [Count(chunks[|chunks| - 1])]
  }

  /** The chunks laid end to end. */
  function Concat(chunks: seq<seq<Flow>>): seq<Flow> {
    if |chunks| == 0 then [] else Concat(chunks[..|chunks| - 1]) + chunks[|chunks| - 1]
  }

  /**
   Counting chunk by chunk and merging the results gives the matrix of one
   sequential count over all the flows, however the flows were cut into chunks.
   */
  lemma {:induction false} MergeAllCounts(chunks: seq<seq<Flow>>)
    ensures MergeAll(CountEach(chunks)) == Count(Concat(chunks))
  {
    if |chunks| > 0 {
      var init := chunks[..|chunks| - 1];
      var ms := CountEach(chunks);
      assert ms[..|ms| - 1] == CountEach(init);
      MergeAllCounts(init);
      MergeCounts(Concat(init), chunks[|chunks| - 1]);
    }
  }

  /** The entries of `m` whose keys are in `keys`. */
  function Restrict<V>(m: map<Ipv4, V>, keys: set<Ipv4>): (r: map<Ipv4, V>)
    ensures r.Keys == m.Keys * keys
    ensures forall k :: k in r ==> r[k] == m[k]
  {
    map k | k in m.Keys * keys :: m[k]
  }

  /** Rows with the same destinations and the same counts are equal. */
  lemma RowsEqual(x: Row, y: Row)
    requires x.Keys == y.Keys
    requires forall dst :: CountIn(x, dst) == CountIn(y, dst)
    ensures x == y
  {
    forall dst | dst in x
      ensures x[dst] == y[dst]
    {
      assert CountIn(x, dst) == CountIn(y, dst);
    }
  }

  lemma MergeRowStep(row: Row, v: Row, done: set<Ipv4>, dst: Ipv4)
    requires dst in v && dst !in done
    ensures MergeRow(row, Restrict(v, done + {dst})) ==
      var before := MergeRow(row, Restrict(v, done));
      before[dst := CountIn(before, dst) + v[dst]]
  {
    var before := MergeRow(row, Restrict(v, done));
    RowsEqual(MergeRow(row, Restrict(v, done + {dst})), before[dst := CountIn(before, dst) + v[dst]]);
  }

  /** The inner loop of the merge: adds every count of `v` into `row`, in any order. */
  method MergeRowInto(row: Row, v: Row) returns (r: Row)
    ensures r.Keys == row.Keys + v.Keys
    ensures forall dst :: CountIn(r, dst) == CountIn(row, dst) + CountIn(v, dst)
  {
    r := row;
    var todo := v.Keys;
    RowsEqual(MergeRow(row, Restrict(v, {})), row);
    while todo != {}
      invariant todo <= v.Keys
      invariant r == MergeRow(row, Restrict(v, v.Keys - todo))
      decreases todo
    {
      var dst :| dst in todo;
      MergeRowStep(row, v, v.Keys - todo, dst);
      assert v.Keys - todo + {dst} == v.Keys - (todo - {dst});
      r := r[dst := CountIn(r, dst) + v[dst]];
      todo := todo - {dst};
    }
    assert Restrict(v, v.Keys) == v;
  }

  /** The result of merging the `done` sources of `partial` and then source `src`. */
  function MergeNext(acc: Matrix, partial: Matrix, done: set<Ipv4>, src: Ipv4): Matrix
    requires src in partial
  {
    Merge(acc, Restrict(partial, done))[src := MergeRow(RowOf(acc, src), partial[src])]
  }

  lemma MergeStepRow(acc: Matrix, partial: Matrix, done: set<Ipv4>, src: Ipv4, s: Ipv4)
    requires src in partial && src !in done
    ensures RowOf(Merge(acc, Restrict(partial, done + {src})), s).Keys == RowOf(MergeNext(acc, partial, done, src), s).Keys
  {
    MergeRowKeys(acc, Restrict(partial, done + {src}), s);
    MergeRowKeys(acc, Restrict(partial, done), s);
  }

  lemma MergeStepLookup(acc: Matrix, partial: Matrix, done: set<Ipv4>, src: Ipv4, s: Ipv4, d: Ipv4)
    requires src in partial && src !in done
    ensures Lookup(Merge(acc, Restrict(partial, done + {src})), s, d) == Lookup(MergeNext(acc, partial, done, src), s, d)
  {
    if s != src {
      assert RowOf(MergeNext(acc, partial, done, src), s) == RowOf(Merge(acc, Restrict(partial, done)), s);
    }
  }

  /** Merging one more source of `partial` replaces that source's row and nothing else. */
  lemma MergeStep(acc: Matrix, partial: Matrix, done: set<Ipv4>, src: Ipv4)
    requires src in partial && src !in done
    ensures Merge(acc, Restrict(partial, done + {src})) == MergeNext(acc, partial, done, src)
  {
    var left := Merge(acc, Restrict(partial, done + {src}));
    var right := MergeNext(acc, partial, done, src);
    assert left.Keys == right.Keys;
    forall s | s in left
      ensures left[s].Keys == right[s].Keys
    {
      MergeStepRow(acc, partial, done, src, s);
    }
    forall s, d
      ensures Lookup(left, s, d) == Lookup(right, s, d)
    {
      MergeStepLookup(acc, partial, done, src, s, d);
    }
    SameShapeEqual(left, right);
  }

  /** Before the loop nothing of `partial` has been merged. */
  lemma MergeNothing(acc: Matrix, partial: Matrix)
    ensures Merge(acc, Restrict(partial, {})) == acc
  {
    var m := Merge(acc, Restrict(partial, {}));
    forall src | src in m
      ensures m[src].Keys == acc[src].Keys
    {
      MergeRowKeys(acc, Restrict(partial, {}), src);
    }
    SameShapeEqual(m, acc);
  }

  lemma RestrictAll(m: Matrix)
    ensures Restrict(m, m.Keys) == m
  {
  }

  /** Merging the row computed for `src` on top of the sources `done` so far. */
  lemma MergeSourceStep(acc: Matrix, partial: Matrix, done: set<Ipv4>, src: Ipv4, row: Row)
    requires src in partial && src !in done
    requires row.Keys == RowOf(Merge(acc, Restrict(partial, done)), src).Keys + partial[src].Keys
    requires forall dst :: CountIn(row, dst) == CountIn(RowOf(Merge(acc, Restrict(partial, done)), src), dst) + CountIn(partial[src], dst)
    ensures Merge(acc, Restrict(partial, done + {src})) == Merge(acc, Restrict(partial, done))[src := row]
  {
    MergeRowKeys(acc, Restrict(partial, done), src);
    forall dst
      ensures CountIn(row, dst) == CountIn(MergeRow(RowOf(acc, src), partial[src]), dst)
    {
      assert Lookup(Merge(acc, Restrict(partial, done)), src, dst) == Lookup(acc, src, dst) + Lookup(Restrict(partial, done), src, dst);
    }
    RowsEqual(row, MergeRow(RowOf(acc, src), partial[src]));
    MergeStep(acc, partial, done, src);
  }

  /** One pass of the merge loop's body keeps its invariant. */
  lemma MergeLoopStep(acc: Matrix, partial: Matrix, pending: set<Ipv4>, src: Ipv4, r: Matrix, row: Row)
    requires src in pending && pending <= partial.Keys
    requires r == Merge(acc, Restrict(partial, partial.Keys - pending))
    requires row.Keys == RowOf(r, src).Keys + partial[src].Keys
    requires forall dst :: CountIn(row, dst) == CountIn(RowOf(r, src), dst) + CountIn(partial[src], dst)
    ensures r[src := row] == Merge(acc, Restrict(partial, partial.Keys - (pending - {src})))
  {
    var done := partial.Keys - pending;
    assert done + {src} == partial.Keys - (pending - {src});
    MergeSourceStep(acc, partial, done, src, row);
  }

  /**
   The merge of one joined worker's matrix into the running result: every
   source of `partial` gets a row, then its counts are added in, visiting
   sources and destinations in any order.
   */
  method MergeInto(acc: Matrix, partial: Matrix) returns (r: Matrix)
    ensures r == Merge(acc, partial)
  {
    r := acc;
    var pending := partial.Keys;
    MergeNothing(acc, partial);
    while pending != {}
      invariant pending <= partial.Keys
      invariant r == Merge(acc, Restrict(partial, partial.Keys - pending))
      decreases pending
    {
      var src :| src in pending;
      var row := MergeRowInto(RowOf(r, src), partial[src]);
      MergeLoopStep(acc, partial, pending, src, r, row);
      r := r[src := row];
      pending := pending - {src};
    }
    assert partial.Keys - pending == partial.Keys;
    RestrictAll(partial);
  }

  /** The coordinating thread's loop: each worker's matrix merged in, in join order. */
  method MergePartials(partials: seq<Matrix>) returns (r: Matrix)
    ensures r == MergeAll(partials)
  {
    r := map[];
    for i := 0 to |partials|
      invariant r == MergeAll(partials[..i])
    {
      assert partials[..i + 1][..i] == partials[..i];
      r := MergeInto(r, partials[i]);
    }
    assert partials[..|partials|] == partials;
  }

  /** The sum of the values of `m`. */
  ghost function SumValues(m: map<Ipv4, nat>): nat
    decreases |m|
  {
    if m == map[] then
      0
    else
      var k :| k in m;
      assert |m - {k}| < |m| by {
        assert (m - {k}).Keys == m.Keys - {k};
      }
      m[k] + SumValues(m - {k})
  }

  /** The sum does not depend on which key is taken out first. */
  lemma {:induction false} SumValuesRemove(m: map<Ipv4, nat>, k: Ipv4)
    requires k in m
    ensures SumValues(m) == m[k] + SumValues(m - {k})
    decreases |m|
  {
    var j :| j in m && SumValues(m) == m[j] + SumValues(m - {j});
    if j != k {
      assert (m - {j}).Keys == m.Keys - {j};
      assert (m - {k}).Keys == m.Keys - {k};
      SumValuesRemove(m - {j}, k);
      SumValuesRemove(m - {k}, j);
      assert m - {j} - {k} == m - {k} - {j};
    }
  }

  /** Changing the value of one key changes the sum by the difference. */
  lemma SumValuesUpdate(m: map<Ipv4, nat>, k: Ipv4, v: nat)
    ensures SumValues(m[k := v]) + CountIn(m, k) == SumValues(m) + v
  {
    SumValuesRemove(m[k := v], k);
    assert m[k := v] - {k} == m - {k};
    if k in m {
      SumValuesRemove(m, k);
    } else {
      assert m - {k} == m;
    }
  }

  /** The number of packets each source sent, over all destinations. */
  ghost function RowTotals(m: Matrix): map<Ipv4, nat> {
    map src | src in m :: SumValues(m[src])
  }

  /** The number of packets a matrix accounts for. */
  ghost function TotalCount(m: Matrix): nat {
    SumValues(RowTotals(m))
  }

  /** Each worker step accounts for exactly one more packet. */
  lemma TotalAccumulate(m: Matrix, f: Flow)
    ensures TotalCount(Accumulate(m, f)) == TotalCount(m) + 1
  {
    var row := RowOf(m, f.src);
    var newRow := row[f.dst := CountIn(row, f.dst) + 1];
    SumValuesUpdate(row, f.dst, CountIn(row, f.dst) + 1);
    assert SumValues(map[]) == 0;
    assert RowTotals(Accumulate(m, f)) == RowTotals(m)[f.src := SumValues(newRow)];
    SumValuesUpdate(RowTotals(m), f.src, SumValues(newRow));
  }

  /** The counts of a worker's matrix add up to the number of packets it saw. */
  lemma {:induction false} CountTotal(flows: seq<Flow>)
    ensures TotalCount(Count(flows)) == |flows|
  {
    if |flows| > 0 {
      var init := flows[..|flows| - 1];
      CountTotal(init);
      TotalAccumulate(Count(init), flows[|flows| - 1]);
    } else {
      assert RowTotals(map[]) == map[];
    }
  }
}
