/** `generate_medusa_buffers`: the four buffers describing the candidate tree,
    built step by step as the source does, each proved equal to its closed
    form in `TreeTopology`. */
module MedusaBuffers {
  import opened Arith
  import opened TensorOps
  import opened TreeTopology

  /** The running sums the source reads off `cumulative_product` and
      `cumulative_sum` are the level starts, level sizes and pool bases. */
  lemma {:induction false} CumulativeFacts(b: seq<int>, i: nat)
    requires ValidChoices(b) && i <= |b|
    ensures i < |b| ==> CumProd(b)[i] == LevelSize(b, i) && CumSum(b)[i] == PoolBase(b, i + 1)
    ensures Sum(CumProd(b)[..i]) == Start(b, i)
  {
    if i > 0 {
      CumulativeFacts(b, i - 1);
      assert CumProd(b)[..i] == CumProd(b)[..i - 1] + [CumProd(b)[i - 1]];
      SumAppend(CumProd(b)[..i - 1], CumProd(b)[i - 1]);
    } else {
      assert CumProd(b)[..0] == [];
    }
  }

  /** Nodes of the level above depth `i` (`prev_cumprod` in the source). */
  function PrevLevelSize(b: seq<int>, i: nat): int
    requires i < |b|
  {
    if i == 0 then 1 else LevelSize(b, i - 1)
  }

  /** The per-level quantities every step of `generate_medusa_buffers` reads. */
  lemma LevelFacts(b: seq<int>, i: nat)
    requires ValidChoices(b) && i < |b|
    ensures CumSum(b)[i] == PoolBase(b, i + 1) && CumProd(b)[i] == LevelSize(b, i)
    ensures PoolBase(b, i + 1) == PoolBase(b, i) + b[i]
    ensures LevelSize(b, i) == PrevLevelSize(b, i) * b[i] && PrevLevelSize(b, i) > 0
    ensures 0 <= Start(b, i) && Start(b, i + 1) <= NodeCount(b)
    ensures Start(b, i + 1) == Start(b, i) + LevelSize(b, i)
  {
    CumulativeFacts(b, i);
    LevelSizeFrom(b, i);
    StartMono(b, i, |b|);
    StartMono(b, i + 1, |b|);
    assert b[..i + 1] == b[..i] + [b[i]];
    SumAppend(b[..i], b[i]);
  }

  /** What step 1 appends for depth `i`: the pool slots of head `i`, tiled
      once per node of the level above, are the pool slots of the level's
      nodes in order. */
  lemma TreeIndicesLevel(b: seq<int>, i: nat)
    requires ValidChoices(b) && i < |b|
    requires PoolBase(b, i + 1) == PoolBase(b, i) + b[i]
    requires LevelSize(b, i) == PrevLevelSize(b, i) * b[i] && PrevLevelSize(b, i) > 0
    requires 0 <= Start(b, i) && Start(b, i + 1) == Start(b, i) + LevelSize(b, i) <= NodeCount(b)
    ensures |Tile(Arange(PoolBase(b, i), PoolBase(b, i + 1)), PrevLevelSize(b, i))| == LevelSize(b, i)
    ensures forall n :: Start(b, i) <= n < Start(b, i + 1) ==>
              Tile(Arange(PoolBase(b, i), PoolBase(b, i + 1)), PrevLevelSize(b, i))[n - Start(b, i)]
              == PoolSlot(b, n)
  {
    forall n | Start(b, i) <= n < Start(b, i + 1)
      ensures Tile(Arange(PoolBase(b, i), PoolBase(b, i + 1)), PrevLevelSize(b, i))[n - Start(b, i)]
              == PoolSlot(b, n)
    {
      TreeIndexAt(b, i, n);
    }
  }

  /** The ids `Start(b, i) .. Start(b, i + 1) - 1` are the nodes of depth `i`. */
  lemma LevelDepths(b: seq<int>, i: nat)
    requires ValidChoices(b) && i < |b|
    ensures 0 <= Start(b, i) && Start(b, i + 1) <= NodeCount(b)
    ensures forall n :: Start(b, i) <= n < Start(b, i + 1) ==> Depth(b, n) == i
  {
    StartMono(b, i, |b|);
    StartMono(b, i + 1, |b|);
    forall n | Start(b, i) <= n < Start(b, i + 1) ensures Depth(b, n) == i {
      DepthUnique(b, n, i);
    }
  }

  lemma TreeIndexAt(b: seq<int>, i: nat, n: int)
    requires ValidChoices(b) && i < |b| && Start(b, i) <= n < Start(b, i + 1)
    requires PoolBase(b, i + 1) == PoolBase(b, i) + b[i]
    requires LevelSize(b, i) == PrevLevelSize(b, i) * b[i]
    ensures 0 <= n < NodeCount(b) && Depth(b, n) == i
    ensures n - Start(b, i) < |Tile(Arange(PoolBase(b, i), PoolBase(b, i + 1)), PrevLevelSize(b, i))|
    ensures Tile(Arange(PoolBase(b, i), PoolBase(b, i + 1)), PrevLevelSize(b, i))[n - Start(b, i)]
            == PoolSlot(b, n)
  {
    NodeAt(b, i, n - Start(b, i));
  }

  /** Step 1: `tree_indices`, the pool slot of every node. */
  method BuildTreeIndices(b: seq<int>) returns (treeIndices: seq<int>)
    requires ValidChoices(b)
    ensures |treeIndices| == NodeCount(b)
    ensures forall n :: 0 <= n < NodeCount(b) ==> treeIndices[n] == PoolSlot(b, n)
  {
    var cumulativeSum := CumSum(b);
    var cumulativeProduct := CumProd(b);
    treeIndices := [];
    var prevCumsum, prevCumprod := 0, 1;
    StartMono(b, 0, |b|);
    for i := 0 to |b|
      invariant Start(b, i) <= NodeCount(b)
      invariant prevCumsum == PoolBase(b, i)
      invariant prevCumprod == if i == 0 then 1 else LevelSize(b, i - 1)
      invariant |treeIndices| == Start(b, i)
      invariant forall n :: 0 <= n < Start(b, i) ==> treeIndices[n] == PoolSlot(b, n)
    {
      LevelFacts(b, i);
      TreeIndicesLevel(b, i);
      var cumsum := cumulativeSum[i];
      var cumprod := cumulativeProduct[i];
      // medusa_indices[prev_cumsum:cumsum] with medusa_indices = arange(cumulative_sum[-1])
      var slice := Tile(Arange(prevCumsum, cumsum), prevCumprod);
      treeIndices := treeIndices + slice;
      prevCumsum, prevCumprod := cumsum, cumprod;
    }
    assert b[..|b|] == b;
  }

  /** The mask after the first `i` levels have been processed: rows of those
      levels are final, the others still hold the identity. */
  function MaskStage(b: seq<int>, i: nat, n: int, m: int): int
    requires ValidChoices(b) && i <= |b| && 0 <= n < NodeCount(b)
  {
    if n < Start(b, i) then (if Attends(b, n, m) then 1 else 0)
    else if n == m then 1 else 0
  }

  /** `parent_idx` for depth `i`: each node id of depth `i - 1` repeated
      `b[i]` times. */
  function ParentIndex(b: seq<int>, i: nat): seq<int>
    requires ValidChoices(b) && 0 < i < |b|
  {
    StartMono(b, i - 1, i);
    RepeatInterleave(Arange(Start(b, i - 1), Start(b, i)), b[i])
  }

  /** `parent_idx` lists the parent of every depth-`i` node in order. */
  lemma ParentIndexLevel(b: seq<int>, i: nat)
    requires ValidChoices(b) && 0 < i < |b|
    ensures 0 <= Start(b, i - 1) <= Start(b, i)
    ensures Start(b, i + 1) == Start(b, i) + LevelSize(b, i) <= NodeCount(b)
    ensures |ParentIndex(b, i)| == LevelSize(b, i)
    ensures forall t :: 0 <= t < |ParentIndex(b, i)| ==> 0 <= ParentIndex(b, i)[t] < Start(b, i)
    ensures forall n :: Start(b, i) <= n < Start(b, i + 1) ==>
              Depth(b, n) == i && ParentIndex(b, i)[n - Start(b, i)] == Parent(b, n)
  {
    LevelSizeFrom(b, i);
    StartMono(b, i - 1, |b|);
    StartMono(b, i + 1, |b|);
    LevelSizePositive(b, i - 1);
    forall t | 0 <= t < |ParentIndex(b, i)|
      ensures 0 <= ParentIndex(b, i)[t] < Start(b, i)
    {
      DivBelow(t, LevelSize(b, i - 1), b[i]);
    }
    forall n | Start(b, i) <= n < Start(b, i + 1)
      ensures Depth(b, n) == i && ParentIndex(b, i)[n - Start(b, i)] == Parent(b, n)
    {
      var t := n - Start(b, i);
      NodeAt(b, i, t);
      DivBelow(t, LevelSize(b, i - 1), b[i]);
    }
  }

  /** Processing level `i > 0` adds the parent's row to each depth-`i` row and
      leaves the others alone; a row and its parent's row share no one, so the
      sums stay 0 or 1. */
  lemma MaskStageStep(b: seq<int>, i: nat, n: int, m: int)
    requires ValidChoices(b) && 0 < i < |b| && 0 <= n < NodeCount(b)
    ensures Start(b, i) <= n < Start(b, i + 1) ==>
              Depth(b, n) == i && 0 <= Parent(b, n) < Start(b, i) &&
              MaskStage(b, i + 1, n, m) == MaskStage(b, i, n, m) + MaskStage(b, i, Parent(b, n), m)
    ensures !(Start(b, i) <= n < Start(b, i + 1)) ==> MaskStage(b, i + 1, n, m) == MaskStage(b, i, n, m)
  {
    if Start(b, i) <= n < Start(b, i + 1) {
      DepthUnique(b, n, i);
      var p := Parent(b, n);
      assert Start(b, i - 1) <= p;
      if Attends(b, p, m) {
        AttendsBelow(b, p, m);
      }
    } else {
      LevelSizePositive(b, i);
      assert Start(b, i) < Start(b, i + 1);
      if n < Start(b, i) {
        assert MaskStage(b, i + 1, n, m) == (if Attends(b, n, m) then 1 else 0);
      }
    }
  }

  /** Level 0 adds nothing: its nodes have no parent. */
  lemma MaskStageFirst(b: seq<int>, n: int, m: int)
    requires ValidChoices(b) && 0 <= n < NodeCount(b)
    ensures MaskStage(b, 1, n, m) == MaskStage(b, 0, n, m)
  {
    if n < Start(b, 1) {
      DepthUnique(b, n, 0);
    }
  }

  /** One level of step 2: the rows of the depth-`i` nodes (which start at
      `cumprodSum`) each get the row of their parent added to them. */
  method AddParentRows(b: seq<int>, i: nat, attnMask: array2<int>, parentIdx: seq<int>, cumprodSum: int)
    requires ValidChoices(b) && 0 < i < |b|
    requires parentIdx == ParentIndex(b, i) && cumprodSum == Start(b, i)
    requires attnMask.Length0 == NodeCount(b) && attnMask.Length1 == NodeCount(b)
    requires forall n, m :: 0 <= n < NodeCount(b) && 0 <= m < NodeCount(b) ==>
               attnMask[n, m] == MaskStage(b, i, n, m)
    modifies attnMask
    ensures forall n, m :: 0 <= n < NodeCount(b) && 0 <= m < NodeCount(b) ==>
              attnMask[n, m] == MaskStage(b, i + 1, n, m)
  {
    ParentIndexLevel(b, i);
    var medusaLen := attnMask.Length1;
    // medusa_attn_mask[parent_idx]: a copy of the parent rows
    var parentRows := new int[|parentIdx|, medusaLen](
      (t: nat, c: nat) reads attnMask
        requires t < |parentIdx| && c < medusaLen => attnMask[parentIdx[t], c]);
    label Before:
    forall row, col | cumprodSum <= row < cumprodSum + |parentIdx| && 0 <= col < medusaLen {
      attnMask[row, col] := attnMask[row, col] + parentRows[row - cumprodSum, col];
    }
    forall n, m | 0 <= n < medusaLen && 0 <= m < medusaLen
      ensures attnMask[n, m] == MaskStage(b, i + 1, n, m)
    {
      MaskStageStep(b, i, n, m);
      if cumprodSum <= n < cumprodSum + |parentIdx| {
        var t := n - cumprodSum;
        assert parentIdx[t] == Parent(b, n);
        assert parentRows[t, m] == old@Before(attnMask[Parent(b, n), m]);
      } else {
        assert attnMask[n, m] == old@Before(attnMask[n, m]);
      }
    }
  }

  /** Step 2: `medusa_attn_mask`. Start from the identity; for every level
      below the first, add to each node's row the row of its parent. */
  method BuildAttnMask(b: seq<int>) returns (attnMask: array2<int>)
    requires ValidChoices(b)
    ensures fresh(attnMask)
    ensures attnMask.Length0 == NodeCount(b) && attnMask.Length1 == NodeCount(b)
    ensures forall n, m :: 0 <= n < NodeCount(b) && 0 <= m < NodeCount(b) ==>
              attnMask[n, m] == if Attends(b, n, m) then 1 else 0
  {
    var cumulativeProduct := CumProd(b);
    CumulativeFacts(b, |b|);
    assert CumProd(b)[..|b|] == CumProd(b);
    var medusaLen := Sum(cumulativeProduct);
    StartMono(b, 0, |b|);
    attnMask := new int[medusaLen, medusaLen]((r, c) => if r == c then 1 else 0);
    var prevCumprodSum := -1;
    for i := 0 to |b|
      invariant prevCumprodSum == if i == 0 then -1 else Start(b, i - 1)
      invariant forall n, m :: 0 <= n < medusaLen && 0 <= m < medusaLen ==>
                  attnMask[n, m] == MaskStage(b, i, n, m)
    {
      CumulativeFacts(b, i);
      if i > 0 {
        StartMono(b, i - 1, |b|);
      }
      var cumprodSum := Sum(cumulativeProduct[..i]);
      if prevCumprodSum != -1 {
        StartMono(b, i - 1, i);
        var parentIdx := RepeatInterleave(Arange(prevCumprodSum, cumprodSum), b[i]);
        AddParentRows(b, i, attnMask, parentIdx, cumprodSum);
      } else {
        forall n, m | 0 <= n < medusaLen && 0 <= m < medusaLen
          ensures MaskStage(b, 1, n, m) == MaskStage(b, 0, n, m)
        {
          MaskStageFirst(b, n, m);
        }
      }
      prevCumprodSum := cumprodSum;
    }
  }

  /** Step 3: `medusa_position_ids`, `[i] * cumulative_product[i]` per level. */
  method BuildPositionIds(b: seq<int>) returns (positionIds: seq<int>)
    requires ValidChoices(b)
    ensures |positionIds| == NodeCount(b)
    ensures forall n :: 0 <= n < NodeCount(b) ==> positionIds[n] == Depth(b, n)
  {
    var cumulativeProduct := CumProd(b);
    positionIds := [];
    StartMono(b, 0, |b|);
    for i := 0 to |b|
      invariant Start(b, i) <= NodeCount(b)
      invariant |positionIds| == Start(b, i)
      invariant forall n :: 0 <= n < Start(b, i) ==> positionIds[n] == Depth(b, n)
    {
      LevelFacts(b, i);
      LevelDepths(b, i);
      positionIds := positionIds + Fill(i, cumulativeProduct[i]);
    }
  }

  /** Column `i` of step 4: the depth-`i` node ids, each repeated once per path
      below it, give every path's entry at depth `i`. */
  lemma RetrieveColumn(b: seq<int>, i: nat)
    requires ValidChoices(b) && i < |b|
    ensures Start(b, i + 1) - Start(b, i) == LevelSize(b, i) > 0
    ensures Prod(b) / LevelSize(b, i) == Span(b, i) > 0
    ensures |RepeatInterleave(Arange(Start(b, i), Start(b, i + 1)), Span(b, i))| == Prod(b)
    ensures forall r :: 0 <= r < Prod(b) ==>
              RepeatInterleave(Arange(Start(b, i), Start(b, i + 1)), Span(b, i))[r]
              == RetrieveIndex(b, r, i)
  {
    SpanFacts(b, i);
    LevelSizePositive(b, i);
    MulDivExact(Span(b, i), LevelSize(b, i));
    forall r | 0 <= r < Prod(b)
      ensures RepeatInterleave(Arange(Start(b, i), Start(b, i + 1)), Span(b, i))[r]
              == RetrieveIndex(b, r, i)
    {
      DivBelow(r, LevelSize(b, i), Span(b, i));
    }
  }

  /** `a[:, k] = column`. */
  method WriteColumn(a: array2<int>, k: nat, column: seq<int>)
    requires k < a.Length1 && |column| == a.Length0
    modifies a
    ensures forall r, c :: 0 <= r < a.Length0 && 0 <= c < a.Length1 ==>
              a[r, c] == if c == k then column[r] else old(a[r, c])
  {
    forall r | 0 <= r < a.Length0 {
      a[r, k] := column[r];
    }
  }

  /** Step 4: `retrieve_indices`, written one column per depth. */
  method BuildRetrieveIndices(b: seq<int>) returns (retrieveIndices: array2<int>)
    requires ValidChoices(b)
    ensures fresh(retrieveIndices)
    ensures retrieveIndices.Length0 == Prod(b) && retrieveIndices.Length1 == |b|
    ensures forall r, k :: 0 <= r < Prod(b) && 0 <= k < |b| ==>
              retrieveIndices[r, k] == RetrieveIndex(b, r, k)
  {
    var cumulativeProduct := CumProd(b);
    ProdPositive(b);
    var medusaLenProd := Prod(b);
    retrieveIndices := new int[medusaLenProd, |b|]((_, _) => 0);
    var prevCumprodSum := 0;
    for i := 0 to |b|
      invariant prevCumprodSum == Start(b, i)
      invariant forall r, k :: 0 <= r < medusaLenProd && 0 <= k < i ==>
                  retrieveIndices[r, k] == RetrieveIndex(b, r, k)
    {
      CumulativeFacts(b, i + 1);
      RetrieveColumn(b, i);
      var cumprodSum := Sum(cumulativeProduct[..i + 1]);
      var column := RepeatInterleave(Arange(prevCumprodSum, cumprodSum),
                                     medusaLenProd / (cumprodSum - prevCumprodSum));
      WriteColumn(retrieveIndices, i, column);
      prevCumprodSum := cumprodSum;
    }
  }

  /** `generate_medusa_buffers`: all four buffers for branch factors `b`. */
  method GenerateMedusaBuffers(b: seq<int>)
    returns (treeIndices: seq<int>, attnMask: array2<int>, positionIds: seq<int>,
             retrieveIndices: array2<int>)
    requires ValidChoices(b)
    ensures fresh(attnMask) && fresh(retrieveIndices)
    ensures |treeIndices| == NodeCount(b)
    ensures forall n :: 0 <= n < NodeCount(b) ==>
              treeIndices[n] == PoolSlot(b, n) && 0 <= treeIndices[n] < Sum(b)
    ensures attnMask.Length0 == NodeCount(b) && attnMask.Length1 == NodeCount(b)
    ensures forall n, m :: 0 <= n < NodeCount(b) && 0 <= m < NodeCount(b) ==>
              attnMask[n, m] == if Attends(b, n, m) then 1 else 0
    ensures forall n :: 0 <= n < NodeCount(b) ==> attnMask[n, n] == 1
    ensures |positionIds| == NodeCount(b)
    ensures forall n :: 0 <= n < NodeCount(b) ==> positionIds[n] == Depth(b, n)
    ensures retrieveIndices.Length0 == Prod(b) && retrieveIndices.Length1 == |b|
    ensures forall r, k :: 0 <= r < Prod(b) && 0 <= k < |b| ==>
              retrieveIndices[r, k] == RetrieveIndex(b, r, k)
  {
    treeIndices := BuildTreeIndices(b);
    attnMask := BuildAttnMask(b);
    positionIds := BuildPositionIds(b);
    retrieveIndices := BuildRetrieveIndices(b);
    forall n | 0 <= n < NodeCount(b) ensures 0 <= treeIndices[n] < Sum(b) {
      PoolSlotInRange(b, n);
    }
  }
}
