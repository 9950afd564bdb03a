/** Splitting an upper-triangular sparse matrix made of rectangular blocks on
    its diagonal: `split_AB` sends alternating blocks to two result matrices,
    `split_AB_blocks` hands each block to one of two buckets.

    A matrix is its list of stored entries in coordinate (COO) order. The
    block heights come as a list in which zero heights are discarded; the
    scan consumes one height each time an entry's row passes the last row of
    the current block, and running out of heights is the StopIteration that
    `next()` raises. */
module BlockSplitting {
  import opened Outcomes

  /** One stored entry of a sparse matrix: row, column and value. */
  datatype Entry<V> = Entry(row: int, col: int, value: V)

  /** `next()` on the iterator of non-zero block heights raised StopIteration. */
  datatype SplitError = HeightsExhausted

  /** The row indices of the entries never decrease (COO order of a CSR matrix). */
  predicate RowsSorted<V>(m: seq<Entry<V>>)
  {
    forall i, j :: 0 <= i < j < |m| ==> m[i].row <= m[j].row
  }

  /** The block heights with the zero heights discarded, in their order. */
  function NonZero(info: seq<int>): (hs: seq<int>)
    ensures |hs| <= |info|
    ensures forall i :: 0 <= i < |hs| ==> hs[i] != 0
    ensures forall i :: 0 <= i < |hs| ==> hs[i] in info
  {
    if info == [] then []
    else if info[0] == 0 then NonZero(info[1..])
    else [info[0]] + NonZero(info[1..])
  }

  /** The sum of the first `c` heights: the first row of block `c`. */
  function PrefixSum(hs: seq<int>, c: nat): int
    requires c <= |hs|
  {
    if c == 0 then 0 else PrefixSum(hs, c - 1) + hs[c - 1]
  }

  /** The result matrix (0 or 1) that receives an entry seen after `c`
      boundary crossings: the selector starts at 1 and each crossing toggles it. */
  function Side(c: nat): (s: nat)
    ensures s < 2
  {
    (1 + c) % 2
  }

  /** The number of crossings before entry `k`, given the crossings counted
      at each entry (`runs`); the scan starts with none. */
  function PrevRun(runs: seq<nat>, k: nat): nat
    requires k <= |runs|
  {
    if k == 0 then 0 else runs[k - 1]
  }

  /** The entries whose run sends them to result `s`, in input order. */
  function Select<V>(m: seq<Entry<V>>, runs: seq<nat>, s: nat): seq<Entry<V>>
    requires |runs| == |m|
  {
    if m == [] then []
    else Select(m[..|m| - 1], runs[..|m| - 1], s) + (if Side(runs[|m| - 1]) == s then [m[|m| - 1]] else [])
  }

  /** The concatenation of a list of blocks. */
  function Flatten<T>(bs: seq<seq<T>>): seq<T>
  {
    if bs == [] then [] else Flatten(bs[..|bs| - 1]) + bs[|bs| - 1]
  }

  /** The blocks of `first` and `second` taken in turn, starting with `first`. */
  function Alt<T>(first: seq<T>, second: seq<T>): seq<T>
    decreases |first| + |second|
  {
    if first == [] then [] else [first[0]] + Alt(second, first[1..])
  }

  // ---------------------------------------------------------------------------
  // split_AB

  /** The variables of `split_AB` between two entries: `limit` is
      `n_row_limit`, `crossings` counts the heights consumed after the first,
      `sel` is `selector`, `a` and `b` are the entry lists of results 0 and 1.
      `runs` records, per entry seen, the crossings made up to it. */
  datatype ABState<V> = ABState(limit: int, crossings: nat, sel: nat,
                                a: seq<Entry<V>>, b: seq<Entry<V>>, runs: seq<nat>)

  /** Append an entry to the list `sel` chooses. */
  function Route<V>(st: ABState<V>, e: Entry<V>): ABState<V>
  {
    if st.sel == 0 then st.(a := st.a + [e], runs := st.runs + [st.crossings])
    else st.(b := st.b + [e], runs := st.runs + [st.crossings])
  }

  /** Before the loop: the first height is consumed (or StopIteration). */
  function StartAB<V>(hs: seq<int>): Result<ABState<V>, SplitError>
  {
    if |hs| == 0 then Err(HeightsExhausted) else Ok(ABState(hs[0] - 1, 0, 1, [], [], []))
  }

  /** One iteration of the loop: at most one height is consumed per entry. */
  function StepAB<V>(st: ABState<V>, e: Entry<V>, hs: seq<int>): Result<ABState<V>, SplitError>
  {
    if e.row > st.limit then
      if st.crossings + 1 < |hs| then
        Ok(Route(st.(limit := st.limit + hs[st.crossings + 1],
                     crossings := st.crossings + 1,
                     sel := (st.sel + 1) % 2), e))
      else Err(HeightsExhausted)
    else Ok(Route(st, e))
  }

  /** The state after the loop has seen all of `m`, with heights `hs`. */
  function ScanAB<V>(m: seq<Entry<V>>, hs: seq<int>): Result<ABState<V>, SplitError>
  {
    if m == [] then StartAB(hs)
    else match ScanAB(m[..|m| - 1], hs)
      case Err(e) => Err(e)
      case Ok(st) => StepAB(st, m[|m| - 1], hs)
  }

  /** A step within the current block keeps to it. */
  lemma StepABStaying<V>(st: ABState<V>, e: Entry<V>, hs: seq<int>)
    requires e.row <= st.limit
    ensures StepAB(st, e, hs) == Ok(Route(st, e))
  {
  }

  /** The scan of one more entry is one more step. */
  lemma {:induction false} ScanABNext<V>(m: seq<Entry<V>>, k: nat, hs: seq<int>, st: ABState<V>)
    requires k < |m| && ScanAB(m[..k], hs) == Ok(st)
    ensures ScanAB(m[..k + 1], hs) == StepAB(st, m[k], hs)
  {
    assert m[..k + 1][..k] == m[..k];
  }

  /** `split_AB` on entry lists: the two result matrices' entries. */
  function SplitABSpec<V>(m: seq<Entry<V>>, info: seq<int>): Result<(seq<Entry<V>>, seq<Entry<V>>), SplitError>
  {
    match ScanAB(m, NonZero(info))
    case Err(e) => Err(e)
    case Ok(st) => Ok((st.a, st.b))
  }

  /** The source's loop: `split_AB` without the conversion to CSR matrices. */
  method SplitAB<V>(m: seq<Entry<V>>, blockInfo: seq<int>)
    returns (r: Result<(seq<Entry<V>>, seq<Entry<V>>), SplitError>)
    requires RowsSorted(m)
    ensures r == SplitABSpec(m, blockInfo)
  {
    var hs := NonZero(blockInfo);
    var selector: nat := 1;
    if |hs| == 0 {
      ScanABErrPersists(m, 0, hs);
      return Err(HeightsExhausted);
    }
    var limit := hs[0] - 1;
    var consumed := 1;
    var a, b := [], [];
    ghost var st: ABState<V> := ABState(limit, 0, selector, a, b, []);
    for k := 0 to |m|
      invariant 1 <= consumed <= |hs|
      invariant ScanAB(m[..k], hs) == Ok(st)
      invariant st.limit == limit && st.crossings == consumed - 1 && st.sel == selector
      invariant st.a == a && st.b == b
    {
      ScanABNext(m, k, hs, st);
      if m[k].row > limit {
        if consumed == |hs| {
          assert ScanAB(m[..k + 1], hs).Err?;
          ScanABErrPersists(m, k + 1, hs);
          return Err(HeightsExhausted);
        }
        StepABCrosses(st, m[k], hs);
        limit := limit + hs[consumed];
        consumed := consumed + 1;
        selector := (selector + 1) % 2;
      } else {
        StepABStaying(st, m[k], hs);
      }
      st := StepAB(st, m[k], hs).value;
      if selector == 0 {
        a := a + [m[k]];
      } else {
        b := b + [m[k]];
      }
    }
    assert m[..|m|] == m;
    return Ok((a, b));
  }

  /** Once the scan has failed on a prefix, it fails on the whole input. */
  lemma {:induction false} ScanABErrPersists<V>(m: seq<Entry<V>>, k: nat, hs: seq<int>)
    requires k <= |m|
    requires ScanAB(m[..k], hs).Err?
    ensures ScanAB(m, hs) == ScanAB(m[..k], hs)
  {
    if k < |m| {
      assert m[..|m| - 1][..k] == m[..k];
      ScanABErrPersists(m[..|m| - 1], k, hs);
    } else {
      assert m[..k] == m;
    }
  }

  // ---------------------------------------------------------------------------
  // split_AB_blocks

  /** The variables of `split_AB_blocks` between two entries: `buffer` holds
      the entries of the block being collected, `a` and `b` the two buckets. */
  datatype BlocksState<V> = BlocksState(limit: int, crossings: nat, sel: nat,
                                        buffer: seq<Entry<V>>,
                                        a: seq<seq<Entry<V>>>, b: seq<seq<Entry<V>>>)

  function Bucket<V>(st: BlocksState<V>, s: nat): seq<seq<Entry<V>>>
  {
    if s == 0 then st.a else st.b
  }

  /** Toggle the selector, then hand a non-empty buffer to the bucket the
      selector now names. */
  function ToggleAndFlush<V>(st: BlocksState<V>): BlocksState<V>
  {
    var sel := (st.sel + 1) % 2;
    if |st.buffer| == 0 then st.(sel := sel)
    else if sel == 0 then st.(sel := sel, a := st.a + [st.buffer], buffer := [])
    else st.(sel := sel, b := st.b + [st.buffer], buffer := [])
  }

  function StartBlocks<V>(hs: seq<int>): Result<BlocksState<V>, SplitError>
  {
    if |hs| == 0 then Err(HeightsExhausted) else Ok(BlocksState(hs[0] - 1, 0, 0, [], [], []))
  }

  function StepBlocks<V>(st: BlocksState<V>, e: Entry<V>, hs: seq<int>): Result<BlocksState<V>, SplitError>
  {
    if e.row > st.limit then
      if st.crossings + 1 < |hs| then
        var t := ToggleAndFlush(st.(limit := st.limit + hs[st.crossings + 1],
                                    crossings := st.crossings + 1));
        Ok(t.(buffer := t.buffer + [e]))
      else Err(HeightsExhausted)
    else Ok(st.(buffer := st.buffer + [e]))
  }

  function ScanBlocks<V>(m: seq<Entry<V>>, hs: seq<int>): Result<BlocksState<V>, SplitError>
  {
    if m == [] then StartBlocks(hs)
    else match ScanBlocks(m[..|m| - 1], hs)
      case Err(e) => Err(e)
      case Ok(st) => StepBlocks(st, m[|m| - 1], hs)
  }

  /** The scan of one more entry is one more step. */
  lemma {:induction false} ScanBlocksNext<V>(m: seq<Entry<V>>, k: nat, hs: seq<int>, st: BlocksState<V>)
    requires k < |m| && ScanBlocks(m[..k], hs) == Ok(st)
    ensures ScanBlocks(m[..k + 1], hs) == StepBlocks(st, m[k], hs)
  {
    assert m[..k + 1][..k] == m[..k];
  }

  /** A step past the current block's last row moves to the next block and
      hands a non-empty buffer to the bucket the toggled selector names. */
  lemma StepBlocksCrossing<V>(st: BlocksState<V>, e: Entry<V>, hs: seq<int>)
    requires e.row > st.limit && st.crossings + 1 < |hs|
    ensures StepBlocks(st, e, hs).Ok?
    ensures var t := StepBlocks(st, e, hs).value;
            var sel := (st.sel + 1) % 2;
            && t.limit == st.limit + hs[st.crossings + 1]
            && t.crossings == st.crossings + 1
            && t.sel == sel
            && t.buffer == (if |st.buffer| > 0 then [] else st.buffer) + [e]
            && t.a == (if |st.buffer| > 0 && sel == 0 then st.a + [st.buffer] else st.a)
            && t.b == (if |st.buffer| > 0 && sel == 1 then st.b + [st.buffer] else st.b)
  {
    StepBlocksCrosses(st, e, hs);
  }

  /** A step within the current block only buffers the entry. */
  lemma StepBlocksStaying<V>(st: BlocksState<V>, e: Entry<V>, hs: seq<int>)
    requires e.row <= st.limit
    ensures StepBlocks(st, e, hs) == Ok(st.(buffer := st.buffer + [e]))
  {
  }

  /** After the loop: a non-empty buffer is flushed after one more toggle. */
  function FinishBlocks<V>(st: BlocksState<V>): BlocksState<V>
  {
    if |st.buffer| > 0 then ToggleAndFlush(st) else st
  }

  /** `split_AB_blocks` on entry lists: the two buckets of blocks. */
  function SplitBlocksSpec<V>(m: seq<Entry<V>>, info: seq<int>)
    : Result<(seq<seq<Entry<V>>>, seq<seq<Entry<V>>>), SplitError>
  {
    match ScanBlocks(m, NonZero(info))
    case Err(e) => Err(e)
    case Ok(st) => var f := FinishBlocks(st); Ok((f.a, f.b))
  }

  /** The source's loop: `split_AB_blocks` without building COO matrices. */
  method SplitABBlocks<V>(m: seq<Entry<V>>, blockInfo: seq<int>)
    returns (r: Result<(seq<seq<Entry<V>>>, seq<seq<Entry<V>>>), SplitError>)
    requires RowsSorted(m)
    ensures r == SplitBlocksSpec(m, blockInfo)
  {
    var hs := NonZero(blockInfo);
    var selector: nat := 0;
    if |hs| == 0 {
      ScanBlocksErrPersists(m, 0, hs);
      return Err(HeightsExhausted);
    }
    var limit := hs[0] - 1;
    var consumed := 1;
    var a, b := [], [];
    var block := [];
    ghost var st: BlocksState<V> := BlocksState(limit, 0, selector, block, a, b);
    for k := 0 to |m|
      invariant 1 <= consumed <= |hs|
      invariant ScanBlocks(m[..k], hs) == Ok(st)
      invariant st.limit == limit && st.crossings == consumed - 1 && st.sel == selector
      invariant st.buffer == block && st.a == a && st.b == b
    {
      ScanBlocksNext(m, k, hs, st);
      if m[k].row > limit {
        if consumed == |hs| {
          assert ScanBlocks(m[..k + 1], hs).Err?;
          ScanBlocksErrPersists(m, k + 1, hs);
          return Err(HeightsExhausted);
        }
        StepBlocksCrossing(st, m[k], hs);
        limit := limit + hs[consumed];
        consumed := consumed + 1;
        selector := (selector + 1) % 2;
        if |block| > 0 {
          if selector == 0 {
            a := a + [block];
          } else {
            b := b + [block];
          }
          block := [];
        }
      } else {
        StepBlocksStaying(st, m[k], hs);
      }
      st := StepBlocks(st, m[k], hs).value;
      block := block + [m[k]];
    }
    assert m[..|m|] == m;
    if |block| > 0 {
      selector := (selector + 1) % 2;
      if selector == 0 {
        a := a + [block];
      } else {
        b := b + [block];
      }
    }
    return Ok((a, b));
  }

  lemma {:induction false} ScanBlocksErrPersists<V>(m: seq<Entry<V>>, k: nat, hs: seq<int>)
    requires k <= |m|
    requires ScanBlocks(m[..k], hs).Err?
    ensures ScanBlocks(m, hs) == ScanBlocks(m[..k], hs)
  {
    if k < |m| {
      assert m[..|m| - 1][..k] == m[..k];
      ScanBlocksErrPersists(m[..|m| - 1], k, hs);
    } else {
      assert m[..k] == m;
    }
  }

  // ---------------------------------------------------------------------------
  // Discarding zero heights

  lemma {:induction false} NonZeroConcat(x: seq<int>, y: seq<int>)
    ensures NonZero(x + y) == NonZero(x) + NonZero(y)
  {
    if x != [] {
      assert (x + y)[1..] == x[1..] + y;
      NonZeroConcat(x[1..], y);
    } else {
      assert x + y == y;
    }
  }

  /** Inserting a zero height anywhere changes neither result. */
  lemma ZeroHeightsIgnored<V>(m: seq<Entry<V>>, x: seq<int>, y: seq<int>)
    ensures SplitABSpec(m, x + [0] + y) == SplitABSpec(m, x + y)
    ensures SplitBlocksSpec(m, x + [0] + y) == SplitBlocksSpec(m, x + y)
  {
    NonZeroSkipsZero(x, y);
  }

  /** A zero height is dropped wherever it sits. */
  lemma NonZeroSkipsZero(x: seq<int>, y: seq<int>)
    ensures NonZero(x + [0] + y) == NonZero(x + y)
  {
    var z := NonZero(x);
    NonZeroConcat(x + [0], y);
    NonZeroConcat(x, [0]);
    NonZeroConcat(x, y);
    assert [0][1..] == [];
    assert NonZero([0]) == [];
    assert NonZero(x + [0]) == z;
  }

  // ---------------------------------------------------------------------------
  // What split_AB computes

  /** Entry `k` made at most one crossing. */
  ghost predicate StepAt(runs: seq<nat>, k: nat)
    requires k < |runs|
  {
    PrevRun(runs, k) <= runs[k] <= PrevRun(runs, k) + 1
  }

  /** The crossings recorded per entry start at 0 or 1 and grow by 0 or 1. */
  ghost predicate RunsStep(runs: seq<nat>)
  {
    forall k :: 0 <= k < |runs| ==> StepAt(runs, k)
  }

  /** Entry `k` made a crossing exactly when its row lies beyond the last row
      of the current block, one before the sum of the heights consumed. */
  ghost predicate CrossAt<V>(m: seq<Entry<V>>, runs: seq<nat>, hs: seq<int>, k: nat)
    requires |runs| == |m| && k < |m|
  {
    && PrevRun(runs, k) < |hs|
    && (runs[k] == PrevRun(runs, k) + 1 <==> m[k].row > PrefixSum(hs, PrevRun(runs, k) + 1) - 1)
  }

  ghost predicate CrossesExactly<V>(m: seq<Entry<V>>, runs: seq<nat>, hs: seq<int>)
    requires |runs| == |m|
  {
    forall k :: 0 <= k < |m| ==> CrossAt(m, runs, hs, k)
  }

  /** The invariant of the loop of `split_AB` after it has seen `m`. */
  ghost predicate ABInv<V>(m: seq<Entry<V>>, hs: seq<int>, st: ABState<V>)
  {
    && |st.runs| == |m|
    && st.crossings < |hs|
    && st.limit == PrefixSum(hs, st.crossings + 1) - 1
    && st.sel == Side(st.crossings)
    && st.crossings == PrevRun(st.runs, |m|)
    && RunsStep(st.runs)
    && CrossesExactly(m, st.runs, hs)
    && st.a == Select(m, st.runs, 0)
    && st.b == Select(m, st.runs, 1)
  }

  lemma SelectAppend<V>(p: seq<Entry<V>>, runs: seq<nat>, e: Entry<V>, r: nat, s: nat)
    requires |runs| == |p|
    ensures Select(p + [e], runs + [r], s) == Select(p, runs, s) + (if Side(r) == s then [e] else [])
  {
    assert (p + [e])[..|p|] == p;
    assert (runs + [r])[..|p|] == runs;
  }

  lemma RunsStepAppend(runs: seq<nat>, c: nat)
    requires RunsStep(runs)
    requires PrevRun(runs, |runs|) <= c <= PrevRun(runs, |runs|) + 1
    ensures RunsStep(runs + [c])
  {
    var r := runs + [c];
    forall k | 0 <= k < |r|
      ensures StepAt(r, k)
    {
      if k < |runs| {
        assert StepAt(runs, k);
        assert PrevRun(r, k) == PrevRun(runs, k) && r[k] == runs[k];
      }
    }
  }

  lemma CrossesAppend<V>(p: seq<Entry<V>>, runs: seq<nat>, hs: seq<int>, e: Entry<V>, c: nat)
    requires |runs| == |p|
    requires CrossesExactly(p, runs, hs)
    requires PrevRun(runs, |p|) < |hs|
    requires c == PrevRun(runs, |p|) + 1 <==> e.row > PrefixSum(hs, PrevRun(runs, |p|) + 1) - 1
    ensures CrossesExactly(p + [e], runs + [c], hs)
  {
    var m, r := p + [e], runs + [c];
    forall k | 0 <= k < |m|
      ensures CrossAt(m, r, hs, k)
    {
      if k < |p| {
        assert CrossAt(p, runs, hs, k);
        assert PrevRun(r, k) == PrevRun(runs, k) && r[k] == runs[k] && m[k] == p[k];
      }
    }
  }

  /** One iteration of the loop of `split_AB` keeps its invariant. */
  lemma StepABInv<V>(p: seq<Entry<V>>, e: Entry<V>, hs: seq<int>, st: ABState<V>)
    requires ABInv(p, hs, st)
    requires StepAB(st, e, hs).Ok?
    ensures ABInv(p + [e], hs, StepAB(st, e, hs).value)
  {
    var st' := StepAB(st, e, hs).value;
    var c' := if e.row > st.limit then st.crossings + 1 else st.crossings;
    assert st'.crossings == c';
    assert st'.runs == st.runs + [c'];
    SelectAppend(p, st.runs, e, c', 0);
    SelectAppend(p, st.runs, e, c', 1);
    RunsStepAppend(st.runs, c');
    CrossesAppend(p, st.runs, hs, e, c');
    assert PrevRun(st'.runs, |p| + 1) == c';
  }

  lemma {:induction false} ScanABInv<V>(m: seq<Entry<V>>, hs: seq<int>)
    ensures ScanAB(m, hs).Ok? ==> ABInv(m, hs, ScanAB(m, hs).value)
  {
    if m == [] {
    } else {
      var p, e := m[..|m| - 1], m[|m| - 1];
      ScanABInv(p, hs);
      assert m == p + [e];
      if ScanAB(p, hs).Ok? && ScanAB(m, hs).Ok? {
        StepABInv(p, e, hs, ScanAB(p, hs).value);
      }
    }
  }

  lemma {:induction false} SelectPartition<V>(m: seq<Entry<V>>, runs: seq<nat>)
    requires |runs| == |m|
    ensures |Select(m, runs, 0)| + |Select(m, runs, 1)| == |m|
    ensures multiset(Select(m, runs, 0)) + multiset(Select(m, runs, 1)) == multiset(m)
  {
    if m != [] {
      var p, e, q := m[..|m| - 1], m[|m| - 1], runs[..|m| - 1];
      SelectPartition(p, q);
      assert m == p + [e];
      SelectLast(m, runs);
      PartitionStep(Select(p, q, 0), Select(p, q, 1), p, e, Select(m, runs, 0), Select(m, runs, 1));
    }
  }

  /** The last entry joins exactly one of the two selections. */
  lemma SelectLast<V>(m: seq<Entry<V>>, runs: seq<nat>)
    requires |runs| == |m| > 0
    ensures var p, e, q := m[..|m| - 1], m[|m| - 1], runs[..|m| - 1];
      || (Select(m, runs, 0) == Select(p, q, 0) + [e] && Select(m, runs, 1) == Select(p, q, 1))
      || (Select(m, runs, 0) == Select(p, q, 0) && Select(m, runs, 1) == Select(p, q, 1) + [e])
  {
  }

  /** Adding one element to one of two parts of a partition of `p` gives a
      partition of `p + [e]`. */
  lemma PartitionStep<T>(a: seq<T>, b: seq<T>, p: seq<T>, e: T, x: seq<T>, y: seq<T>)
    requires |a| + |b| == |p| && multiset(a) + multiset(b) == multiset(p)
    requires (x == a + [e] && y == b) || (x == a && y == b + [e])
    ensures |x| + |y| == |p + [e]|
    ensures multiset(x) + multiset(y) == multiset(p + [e])
  {
    assert multiset(p + [e]) == multiset(p) + multiset{e};
  }

  /** `split_AB` sends every entry to exactly one result, keeping input order:
      an entry goes to result `Side(c)` where `c` is the number of boundary
      crossings made up to it, so the entries of one run share a result and
      successive runs alternate. */
  lemma SplitABPartition<V>(m: seq<Entry<V>>, info: seq<int>)
    ensures SplitABSpec(m, info).Ok? ==>
      var st := ScanAB(m, NonZero(info)).value;
      var (a, b) := SplitABSpec(m, info).value;
      && |st.runs| == |m|
      && a == Select(m, st.runs, 0)
      && b == Select(m, st.runs, 1)
      && |a| + |b| == |m|
      && multiset(a) + multiset(b) == multiset(m)
      && RunsStep(st.runs)
      && CrossesExactly(m, st.runs, NonZero(info))
  {
    ScanABInv(m, NonZero(info));
    if SplitABSpec(m, info).Ok? {
      SelectPartition(m, ScanAB(m, NonZero(info)).value.runs);
    }
  }

  /** Each entry consumes at most one height: the limit after the loop is the
      sum of the first `c + 1` non-zero heights minus one, with `c <= |m|`. */
  lemma SplitABLimit<V>(m: seq<Entry<V>>, info: seq<int>)
    ensures ScanAB(m, NonZero(info)).Ok? ==>
      var st := ScanAB(m, NonZero(info)).value;
      && st.crossings <= |m|
      && st.crossings < |NonZero(info)|
      && st.limit == PrefixSum(NonZero(info), st.crossings + 1) - 1
      && st.sel == (1 + st.crossings) % 2
  {
    var hs := NonZero(info);
    ScanABInv(m, hs);
    if ScanAB(m, hs).Ok? {
      var runs := ScanAB(m, hs).value.runs;
      RunsBounded(runs, |m|);
    }
  }

  lemma {:induction false} RunsBounded(runs: seq<nat>, k: nat)
    requires RunsStep(runs) && k <= |runs|
    ensures PrevRun(runs, k) <= k
  {
    if k > 0 {
      RunsBounded(runs, k - 1);
      assert StepAt(runs, k - 1);
    }
  }

  /** Without any non-zero height the first `next()` raises. */
  lemma {:induction false} SplitABNeedsAHeight<V>(m: seq<Entry<V>>, info: seq<int>)
    requires NonZero(info) == []
    ensures SplitABSpec(m, info) == Err(HeightsExhausted)
    ensures SplitBlocksSpec(m, info) == Err(HeightsExhausted)
  {
    var hs := NonZero(info);
    assert m[..0] == [];
    ScanABErrPersists(m, 0, hs);
    ScanBlocksErrPersists(m, 0, hs);
  }

  /** When every row lies within the total height, no `next()` runs dry. */
  lemma {:induction false} ScanABOkWhenRowsFit<V>(m: seq<Entry<V>>, hs: seq<int>)
    requires hs != []
    requires forall k :: 0 <= k < |m| ==> m[k].row < PrefixSum(hs, |hs|)
    ensures ScanAB(m, hs).Ok?
  {
    if m != [] {
      var p := m[..|m| - 1];
      ScanABOkWhenRowsFit(p, hs);
      ScanABInv(p, hs);
      var st := ScanAB(p, hs).value;
    }
  }

  lemma SplitABOkWhenRowsFit<V>(m: seq<Entry<V>>, info: seq<int>)
    requires NonZero(info) != []
    requires forall k :: 0 <= k < |m| ==> m[k].row < PrefixSum(NonZero(info), |NonZero(info)|)
    ensures SplitABSpec(m, info).Ok?
  {
    ScanABOkWhenRowsFit(m, NonZero(info));
  }

  // ---------------------------------------------------------------------------
  // Blocks: the intended alternation, and the quirk of the `if`

  /** Row `r` lies in block `j`: between the sums of the first `j` and the
      first `j + 1` heights. */
  ghost predicate InBlock(hs: seq<int>, r: int, j: nat)
  {
    j < |hs| && PrefixSum(hs, j) <= r < PrefixSum(hs, j + 1)
  }

  /** The facts of the invariant that speak of the current block only. */
  ghost predicate ABShape<V>(m: seq<Entry<V>>, hs: seq<int>, st: ABState<V>)
  {
    && |st.runs| == |m|
    && st.crossings < |hs|
    && st.limit == PrefixSum(hs, st.crossings + 1) - 1
    && st.crossings == PrevRun(st.runs, |m|)
  }

  lemma ScanABShape<V>(m: seq<Entry<V>>, hs: seq<int>)
    ensures ScanAB(m, hs).Ok? ==> ABShape(m, hs, ScanAB(m, hs).value)
  {
    ScanABInv(m, hs);
  }

  lemma FollowStep<V>(p: seq<Entry<V>>, e: Entry<V>, hs: seq<int>, st: ABState<V>, b: nat)
    requires ABShape(p, hs, st)
    requires InBlock(hs, e.row, b)
    requires st.crossings <= b <= st.crossings + 1
    ensures StepAB(st, e, hs).Ok? && StepAB(st, e, hs).value.runs == st.runs + [b]
  {
  }

  /** The hypotheses of `ScanFollowsBlocks` hold for every prefix. */
  lemma FollowsBlocksPrefix<V>(m: seq<Entry<V>>, hs: seq<int>, blocks: seq<nat>)
    requires |blocks| == |m| > 0
    requires forall k :: 0 <= k < |m| ==> InBlock(hs, m[k].row, blocks[k])
    requires RunsStep(blocks)
    ensures var p, pb := m[..|m| - 1], blocks[..|m| - 1];
      && (forall k :: 0 <= k < |p| ==> InBlock(hs, p[k].row, pb[k]))
      && RunsStep(pb)
  {
    var p, pb := m[..|m| - 1], blocks[..|m| - 1];
    forall k | 0 <= k < |p|
      ensures InBlock(hs, p[k].row, pb[k])
      ensures StepAt(pb, k)
    {
      assert StepAt(blocks, k);
      assert p[k] == m[k] && pb[k] == blocks[k];
      assert PrevRun(pb, k) == PrevRun(blocks, k);
    }
  }

  /** When each entry lies in the block of the entry before it or in the next
      one (the first entry in block 0 or 1), the crossings counted per entry
      are the block indices. */
  lemma {:induction false} ScanFollowsBlocks<V>(m: seq<Entry<V>>, hs: seq<int>, blocks: seq<nat>)
    requires hs != []
    requires |blocks| == |m|
    requires forall k :: 0 <= k < |m| ==> InBlock(hs, m[k].row, blocks[k])
    requires RunsStep(blocks)
    ensures ScanAB(m, hs).Ok? && ScanAB(m, hs).value.runs == blocks
  {
    if m != [] {
      var p, n := m[..|m| - 1], |m| - 1;
      var pb := blocks[..n];
      FollowsBlocksPrefix(m, hs, blocks);
      ScanFollowsBlocks(p, hs, pb);
      ScanABShape(p, hs);
      var st := ScanAB(p, hs).value;
      assert st.crossings == PrevRun(blocks, n);
      assert StepAt(blocks, n);
      FollowStep(p, m[n], hs, st, blocks[n]);
      assert blocks == pb + [blocks[n]];
    }
  }

  /** The alternation the source's documentation promises: when no block is
      skipped, every entry of block `j` lands in result `(1 + j) % 2`. */
  lemma SplitABFollowsBlocks<V>(m: seq<Entry<V>>, info: seq<int>, blocks: seq<nat>)
    requires NonZero(info) != []
    requires |blocks| == |m|
    requires forall k :: 0 <= k < |m| ==> InBlock(NonZero(info), m[k].row, blocks[k])
    requires RunsStep(blocks)
    ensures SplitABSpec(m, info) == Ok((Select(m, blocks, 0), Select(m, blocks, 1)))
  {
    ScanFollowsBlocks(m, NonZero(info), blocks);
    ScanABInv(m, NonZero(info));
  }

  /** The boundary test is an `if`, not a `while`: with heights 1, 1, 2 and
      no entry in the second block, the two entries of row 2 (both in the
      third block) land in different results. */
  lemma SkippedBlockSplitsItsEntries()
    ensures SplitABSpec([Entry(0, 0, 10), Entry(2, 2, 20), Entry(2, 3, 30)], [1, 1, 2])
         == Ok(([Entry(2, 2, 20)], [Entry(0, 0, 10), Entry(2, 3, 30)]))
  {
    var e0, e1, e2 := Entry(0, 0, 10), Entry(2, 2, 20), Entry(2, 3, 30);
    var m, hs := [e0, e1, e2], [1, 1, 2];
    SkippedExampleHeights();
    SkippedExampleTwo();
    var st2 := ABState(1, 1, 0, [e1], [e0], [0, 1]);
    var st3 := ABState(3, 2, 1, [e1], [e0, e2], [0, 1, 2]);
    assert m[..2] == [e0, e1];
    assert Route(st2.(limit := 3, crossings := 2, sel := 1), e2) == st3;
    assert ScanAB(m, hs) == StepAB(st2, e2, hs) == Ok(st3);
  }

  /** No height of the example is zero. */
  lemma SkippedExampleHeights()
    ensures NonZero([1, 1, 2]) == [1, 1, 2]
  {
    var hs := [1, 1, 2];
    assert hs[1..] == [1, 2] && hs[1..][1..] == [2] && [2][1..] == [];
  }

  /** The example after its first two entries: the second entry crossed
      into block 1 and went to result `a`. */
  lemma SkippedExampleTwo()
    ensures ScanAB([Entry(0, 0, 10), Entry(2, 2, 20)], [1, 1, 2])
         == Ok(ABState(1, 1, 0, [Entry(2, 2, 20)], [Entry(0, 0, 10)], [0, 1]))
  {
    var e0, e1 := Entry(0, 0, 10), Entry(2, 2, 20);
    var hs := [1, 1, 2];
    var st1 := ABState(0, 0, 1, [], [e0], [0]);
    var st2 := ABState(1, 1, 0, [e1], [e0], [0, 1]);
    SkippedExampleOne();
    assert [e0, e1][..1] == [e0];
    assert Route(st1.(limit := 1, crossings := 1, sel := 0), e1) == st2;
    assert ScanAB([e0, e1], hs) == StepAB(st1, e1, hs) == Ok(st2);
  }

  /** The example after its first entry, which lies in block 0. */
  lemma SkippedExampleOne()
    ensures ScanAB([Entry(0, 0, 10)], [1, 1, 2]) == Ok(ABState(0, 0, 1, [], [Entry(0, 0, 10)], [0]))
  {
    var e0 := Entry(0, 0, 10);
    var hs := [1, 1, 2];
    var st0 := ABState(0, 0, 1, [], [], []);
    var st1 := ABState(0, 0, 1, [], [e0], [0]);
    assert ScanAB<int>([], hs) == Ok(st0);
    assert [e0][..0] == [];
    assert Route(st0, e0) == st1;
    assert ScanAB([e0], hs) == StepAB(st0, e0, hs) == Ok(st1);
  }

  // ---------------------------------------------------------------------------
  // What split_AB_blocks computes

  lemma FlattenAppend<T>(bs: seq<seq<T>>, x: seq<T>)
    ensures Flatten(bs + [x]) == Flatten(bs) + x
  {
    assert (bs + [x])[..|bs|] == bs;
  }

  /** The state of `split_AB_blocks` mirrors that of `split_AB` on the same
      entries: same limit and crossings, selectors one apart, and each result
      of `split_AB` is its bucket flattened, followed by the buffer when the
      buffer's entries belong to it. */
  ghost predicate Mirrors<V>(x: ABState<V>, y: BlocksState<V>)
  {
    && x.limit == y.limit
    && x.crossings == y.crossings
    && x.sel < 2 && y.sel < 2 && x.sel == (y.sel + 1) % 2
    && x.a == Flatten(y.a) + (if x.sel == 0 then y.buffer else [])
    && x.b == Flatten(y.b) + (if x.sel == 1 then y.buffer else [])
  }

  /** A crossing: `split_AB` toggles and routes the entry to the other
      result, `split_AB_blocks` toggles, flushes, and starts a new block. */
  lemma MirrorCross<V>(x: ABState<V>, y: BlocksState<V>, e: Entry<V>)
    requires Mirrors(x, y)
    ensures var t := ToggleAndFlush(y);
      Mirrors(Route(x.(sel := (x.sel + 1) % 2), e), t.(buffer := t.buffer + [e]))
  {
    var t := ToggleAndFlush(y);
    var x1 := x.(sel := (x.sel + 1) % 2);
    if y.buffer == [] {
      assert t == y.(sel := x.sel);
      MirrorRoute(x1, t, e);
    } else if x.sel == 0 {
      assert t == y.(sel := 0, a := y.a + [y.buffer], buffer := []);
      FlattenAppend(y.a, y.buffer);
      assert Mirrors(x1, t);
      MirrorRoute(x1, t, e);
    } else {
      assert t == y.(sel := 1, b := y.b + [y.buffer], buffer := []);
      FlattenAppend(y.b, y.buffer);
      assert Mirrors(x1, t);
      MirrorRoute(x1, t, e);
    }
  }

  /** Within a block both functions send the entry to the same side. */
  lemma MirrorRoute<V>(x: ABState<V>, y: BlocksState<V>, e: Entry<V>)
    requires Mirrors(x, y)
    ensures Mirrors(Route(x, e), y.(buffer := y.buffer + [e]))
  {
  }

  lemma MirrorStep<V>(x: ABState<V>, y: BlocksState<V>, e: Entry<V>, hs: seq<int>)
    requires Mirrors(x, y)
    ensures StepAB(x, e, hs).Ok? == StepBlocks(y, e, hs).Ok?
    ensures StepAB(x, e, hs).Ok? ==> Mirrors(StepAB(x, e, hs).value, StepBlocks(y, e, hs).value)
  {
    if e.row > x.limit && x.crossings + 1 < |hs| {
      MirrorStepCross(x, y, e, hs);
    } else if e.row <= x.limit {
      MirrorRoute(x, y, e);
      assert StepAB(x, e, hs) == Ok(Route(x, e));
      assert StepBlocks(y, e, hs) == Ok(y.(buffer := y.buffer + [e]));
    }
  }

  /** A crossing with a height left: both loops consume it and stay in step. */
  lemma MirrorStepCross<V>(x: ABState<V>, y: BlocksState<V>, e: Entry<V>, hs: seq<int>)
    requires Mirrors(x, y) && e.row > x.limit && x.crossings + 1 < |hs|
    ensures StepAB(x, e, hs).Ok? && StepBlocks(y, e, hs).Ok?
    ensures Mirrors(StepAB(x, e, hs).value, StepBlocks(y, e, hs).value)
  {
    var x1 := x.(limit := x.limit + hs[x.crossings + 1], crossings := x.crossings + 1);
    var y1 := y.(limit := y.limit + hs[y.crossings + 1], crossings := y.crossings + 1);
    MirrorAdvance(x, y, hs[x.crossings + 1], hs[y.crossings + 1]);
    MirrorCross(x1, y1, e);
    StepABCrosses(x, e, hs);
    StepBlocksCrosses(y, e, hs);
  }

  lemma StepABCrosses<V>(x: ABState<V>, e: Entry<V>, hs: seq<int>)
    requires e.row > x.limit && x.crossings + 1 < |hs|
    ensures var x1 := x.(limit := x.limit + hs[x.crossings + 1], crossings := x.crossings + 1);
      StepAB(x, e, hs) == Ok(Route(x1.(sel := (x1.sel + 1) % 2), e))
  {
  }

  /** A crossing, stated through the toggle and flush of the buffer. */
  lemma StepBlocksCrosses<V>(y: BlocksState<V>, e: Entry<V>, hs: seq<int>)
    requires e.row > y.limit && y.crossings + 1 < |hs|
    ensures var t := ToggleAndFlush(y.(limit := y.limit + hs[y.crossings + 1], crossings := y.crossings + 1));
      StepBlocks(y, e, hs) == Ok(t.(buffer := t.buffer + [e]))
  {
  }

  /** Consuming the same height keeps the two states in step. */
  lemma MirrorAdvance<V>(x: ABState<V>, y: BlocksState<V>, dx: int, dy: int)
    requires Mirrors(x, y) && dx == dy
    ensures Mirrors(x.(limit := x.limit + dx, crossings := x.crossings + 1),
                    y.(limit := y.limit + dy, crossings := y.crossings + 1))
  {
  }

  lemma {:induction false} ScanBlocksMirrorsAB<V>(m: seq<Entry<V>>, hs: seq<int>)
    ensures ScanAB(m, hs).Ok? == ScanBlocks(m, hs).Ok?
    ensures ScanAB(m, hs).Ok? ==> Mirrors(ScanAB(m, hs).value, ScanBlocks(m, hs).value)
  {
    if m != [] {
      var p := m[..|m| - 1];
      ScanBlocksMirrorsAB(p, hs);
      if ScanAB(p, hs).Ok? {
        MirrorStep(ScanAB(p, hs).value, ScanBlocks(p, hs).value, m[|m| - 1], hs);
      }
    }
  }

  /** On the same input `split_AB_blocks` fails exactly when `split_AB` does,
      and the blocks of bucket `s`, concatenated, are result `s` of `split_AB`. */
  lemma SplitBlocksFlattenToAB<V>(m: seq<Entry<V>>, info: seq<int>)
    ensures SplitBlocksSpec(m, info).Ok? == SplitABSpec(m, info).Ok?
    ensures SplitBlocksSpec(m, info).Ok? ==>
      && Flatten(SplitBlocksSpec(m, info).value.0) == SplitABSpec(m, info).value.0
      && Flatten(SplitBlocksSpec(m, info).value.1) == SplitABSpec(m, info).value.1
  {
    var hs := NonZero(info);
    ScanBlocksMirrorsAB(m, hs);
    if ScanBlocks(m, hs).Ok? {
      var y := ScanBlocks(m, hs).value;
      FlattenAppend(y.a, y.buffer);
      FlattenAppend(y.b, y.buffer);
    }
  }

  lemma AltAppendFirst<T>(x: seq<T>, y: seq<T>, z: T)
    requires |x| == |y|
    ensures Alt(x + [z], y) == Alt(x, y) + [z]
    decreases |x| + |y|, 1
  {
    if x != [] {
      assert (x + [z])[1..] == x[1..] + [z];
      AltAppendSecond(y, x[1..], z);
    }
  }

  lemma AltAppendSecond<T>(x: seq<T>, y: seq<T>, z: T)
    requires |x| == |y| + 1
    ensures Alt(x, y + [z]) == Alt(x, y) + [z]
    decreases |x| + |y|, 0
  {
    AltAppendFirst(y, x[1..], z);
  }

  /** The blocks emitted so far, in the order they were emitted: the bucket
      the selector names received the last one. */
  function Emitted<V>(y: BlocksState<V>): seq<seq<Entry<V>>>
  {
    var cur, other := Bucket(y, y.sel), Bucket(y, (y.sel + 1) % 2);
    if |cur| == |other| then Alt(other, cur) else Alt(cur, other)
  }

  /** The next flush goes to the bucket the selector does not name: that
      bucket holds as many blocks as the other, or one fewer. */
  ghost predicate Balanced<V>(y: BlocksState<V>)
  {
    var cur, other := Bucket(y, y.sel), Bucket(y, (y.sel + 1) % 2);
    |other| <= |cur| <= |other| + 1
  }

  ghost predicate NoEmptyBlock<V>(bs: seq<seq<Entry<V>>>)
  {
    forall i :: 0 <= i < |bs| ==> bs[i] != []
  }

  /** The invariant of the loop of `split_AB_blocks` after it has seen `m`. */
  ghost predicate BlocksInv<V>(m: seq<Entry<V>>, y: BlocksState<V>)
  {
    && y.sel < 2
    && (m == [] ==> y.a == [] && y.b == [] && y.buffer == [])
    && (m != [] ==> y.buffer != [])
    && NoEmptyBlock(y.a) && NoEmptyBlock(y.b)
    && Balanced(y)
    && Flatten(Emitted(y)) + y.buffer == m
  }

  /** Toggling and flushing a non-empty buffer emits it as the next block. */
  lemma FlushKeepsOrder<V>(y: BlocksState<V>)
    requires y.sel < 2 && y.buffer != []
    requires NoEmptyBlock(y.a) && NoEmptyBlock(y.b) && Balanced(y)
    ensures var f := ToggleAndFlush(y);
      && f.sel < 2 && f.buffer == []
      && NoEmptyBlock(f.a) && NoEmptyBlock(f.b) && Balanced(f)
      && Emitted(f) == Emitted(y) + [y.buffer]
  {
    var f := ToggleAndFlush(y);
    var cur, other := Bucket(y, y.sel), Bucket(y, (y.sel + 1) % 2);
    assert Bucket(f, f.sel) == other + [y.buffer];
    assert Bucket(f, (f.sel + 1) % 2) == cur;
    if |cur| == |other| {
      AltAppendFirst(other, cur, y.buffer);
    } else {
      AltAppendSecond(cur, other, y.buffer);
    }
  }

  /** Appending an entry to the open block keeps the invariant. */
  lemma BufferKeepsInv<V>(p: seq<Entry<V>>, e: Entry<V>, y: BlocksState<V>)
    requires y.sel < 2 && NoEmptyBlock(y.a) && NoEmptyBlock(y.b) && Balanced(y)
    requires Flatten(Emitted(y)) + y.buffer == p
    ensures BlocksInv(p + [e], y.(buffer := y.buffer + [e]))
  {
    var y1 := y.(buffer := y.buffer + [e]);
    EmittedIgnoresBuffer(y, y.buffer + [e]);
    assert Flatten(Emitted(y1)) + y1.buffer == p + [e];
  }

  /** The emitted blocks and the balance do not depend on the open block. */
  lemma EmittedIgnoresBuffer<V>(y: BlocksState<V>, buffer: seq<Entry<V>>)
    ensures Emitted(y.(buffer := buffer)) == Emitted(y)
    ensures Balanced(y.(buffer := buffer)) == Balanced(y)
  {
    var y1 := y.(buffer := buffer);
    assert Bucket(y1, 0) == Bucket(y, 0) && Bucket(y1, 1) == Bucket(y, 1);
  }

  /** At a crossing the open block, if any, is emitted before the new one
      opens. */
  lemma CrossKeepsInv<V>(p: seq<Entry<V>>, t: BlocksState<V>)
    requires BlocksInv(p, t)
    ensures var f := ToggleAndFlush(t);
      && f.sel < 2 && NoEmptyBlock(f.a) && NoEmptyBlock(f.b) && Balanced(f)
      && Flatten(Emitted(f)) + f.buffer == p
  {
    var f := ToggleAndFlush(t);
    if t.buffer != [] {
      FlushKeepsOrder(t);
      FlattenAppend(Emitted(t), t.buffer);
    } else {
      assert f == t.(sel := (t.sel + 1) % 2);
      assert Emitted(f) == [];
    }
  }

  lemma StepBlocksInv<V>(p: seq<Entry<V>>, e: Entry<V>, hs: seq<int>, y: BlocksState<V>)
    requires BlocksInv(p, y)
    requires StepBlocks(y, e, hs).Ok?
    ensures BlocksInv(p + [e], StepBlocks(y, e, hs).value)
  {
    if e.row > y.limit {
      var t := y.(limit := y.limit + hs[y.crossings + 1], crossings := y.crossings + 1);
      var f := ToggleAndFlush(t);
      assert StepBlocks(y, e, hs) == Ok(f.(buffer := f.buffer + [e]));
      CrossKeepsInv(p, t);
      BufferKeepsInv(p, e, f);
    } else {
      assert StepBlocks(y, e, hs) == Ok(y.(buffer := y.buffer + [e]));
      BufferKeepsInv(p, e, y);
    }
  }

  lemma {:induction false} ScanBlocksInv<V>(m: seq<Entry<V>>, hs: seq<int>)
    ensures ScanBlocks(m, hs).Ok? ==> BlocksInv(m, ScanBlocks(m, hs).value)
  {
    if m != [] {
      var p := m[..|m| - 1];
      ScanBlocksInv(p, hs);
      assert m == p + [m[|m| - 1]];
      if ScanBlocks(p, hs).Ok? {
        var y := ScanBlocks(p, hs).value;
        assert ScanBlocks(m, hs) == StepBlocks(y, m[|m| - 1], hs);
        if StepBlocks(y, m[|m| - 1], hs).Ok? {
          StepBlocksInv(p, m[|m| - 1], hs, y);
        }
      }
    }
  }

  /** `first` and `second` taken in turn, starting with `first`, give back `m`. */
  ghost predicate AlternatesFrom<V>(first: seq<seq<Entry<V>>>, second: seq<seq<Entry<V>>>, m: seq<Entry<V>>)
  {
    |second| <= |first| <= |second| + 1 && Flatten(Alt(first, second)) == m
  }

  /** The emission order, read off the two buckets. */
  lemma EmittedAlternates<V>(f: BlocksState<V>, m: seq<Entry<V>>)
    requires f.sel < 2 && Balanced(f) && Flatten(Emitted(f)) == m
    ensures AlternatesFrom(f.a, f.b, m) || AlternatesFrom(f.b, f.a, m)
  {
    var cur, other := Bucket(f, f.sel), Bucket(f, (f.sel + 1) % 2);
    if |cur| == |other| {
      assert AlternatesFrom(other, cur, m);
    } else {
      assert AlternatesFrom(cur, other, m);
    }
  }

  /** No block of `split_AB_blocks` is empty, and the blocks of the two
      buckets, taken in turn, are the input entries in order: successive
      blocks go to alternate buckets, whose sizes differ by at most one. */
  lemma SplitBlocksAlternate<V>(m: seq<Entry<V>>, info: seq<int>)
    ensures SplitBlocksSpec(m, info).Ok? ==>
      var (a, b) := SplitBlocksSpec(m, info).value;
      && NoEmptyBlock(a) && NoEmptyBlock(b)
      && (AlternatesFrom(a, b, m) || AlternatesFrom(b, a, m))
  {
    var hs := NonZero(info);
    ScanBlocksInv(m, hs);
    if ScanBlocks(m, hs).Ok? {
      var y := ScanBlocks(m, hs).value;
      var f := FinishBlocks(y);
      assert SplitBlocksSpec(m, info) == Ok((f.a, f.b));
      if y.buffer != [] {
        FlushKeepsOrder(y);
        FlattenAppend(Emitted(y), y.buffer);
      } else {
        assert f == y;
      }
      EmittedAlternates(f, m);
    }
  }
}
