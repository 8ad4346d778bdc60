/** The shape of the Medusa candidate tree built from the branch factors
    `medusa_choices` (here `b`): closed forms for every buffer that
    `generate_medusa_buffers` fills, and the facts about them.

    Nodes are numbered level by level: depth `d` holds `LevelSize(b, d) =
    b[0] * ... * b[d]` nodes, with ids `Start(b, d) .. Start(b, d + 1) - 1`.
    Inside a level a node's offset is a mixed-radix number whose last digit
    (`offset % b[d]`) picks the candidate token of head `d` and whose other
    digits (`offset / b[d]`) are the parent's offset. */
module TreeTopology {
  import opened Arith

  /** Non-empty, all branch factors positive. The source never checks this;
      every buffer below is meaningless without it. */
  predicate ValidChoices(b: seq<int>)
  {
    |b| > 0 && AllPositive(b)
  }

  /** Number of nodes at depth `d` (`cumulative_product[d]`). */
  function LevelSize(b: seq<int>, d: nat): int
    requires d < |b|
  {
    Prod(b[..d + 1])
  }

  /** First node id at depth `d` (`cumulative_product[:d].sum()`). */
  function Start(b: seq<int>, d: nat): int
    requires d <= |b|
  {
    if d == 0 then 0 else Start(b, d - 1) + LevelSize(b, d - 1)
  }

  /** Total number of tree nodes (`medusa_len`). */
  function NodeCount(b: seq<int>): int
  {
    Start(b, |b|)
  }

  /** First slot of head `d` in the flat candidate pool (`cumulative_sum[d - 1]`,
      zero for the root). */
  function PoolBase(b: seq<int>, d: nat): int
    requires d <= |b|
  {
    Sum(b[..d])
  }

  /** Number of root-to-leaf paths through one node of depth `d`. */
  function Span(b: seq<int>, d: nat): int
    requires d < |b|
  {
    Prod(b[d + 1..])
  }

  lemma LevelSizePositive(b: seq<int>, d: nat)
    requires ValidChoices(b) && d < |b|
    ensures LevelSize(b, d) > 0
  {
    ProdPositive(b[..d + 1]);
  }

  lemma LevelSizeStep(b: seq<int>, d: nat)
    requires d + 1 < |b|
    ensures LevelSize(b, d + 1) == LevelSize(b, d) * b[d + 1]
  {
    assert b[..d + 2] == b[..d + 1] + [b[d + 1]];
    ProdAppend(b[..d + 1], b[d + 1]);
  }

  lemma SpanFacts(b: seq<int>, d: nat)
    requires ValidChoices(b) && d < |b|
    ensures Span(b, d) > 0
    ensures LevelSize(b, d) * Span(b, d) == Prod(b)
    ensures d + 1 < |b| ==> Span(b, d) == b[d + 1] * Span(b, d + 1)
    ensures d + 1 == |b| ==> Span(b, d) == 1
  {
    ProdPositive(b[d + 1..]);
    ProdSplit(b, d + 1);
    if d + 1 < |b| {
      assert b[d + 1..][1..] == b[d + 2..];
    }
  }

  /** The ids of consecutive levels tile `[0, NodeCount)` in increasing order. */
  lemma {:induction false} StartMono(b: seq<int>, d: nat, e: nat)
    requires ValidChoices(b) && d <= e <= |b|
    ensures Start(b, d) <= Start(b, e)
    ensures d < e ==> Start(b, d + 1) <= Start(b, e)
    ensures 0 <= Start(b, d)
    decreases e
  {
    if d < e {
      StartMono(b, d, e - 1);
      LevelSizePositive(b, e - 1);
    } else if d > 0 {
      StartMono(b, d - 1, e - 1);
      LevelSizePositive(b, d - 1);
    }
  }

  function DepthFrom(b: seq<int>, n: int, d: nat): (e: nat)
    requires ValidChoices(b) && d < |b| && Start(b, d) <= n < NodeCount(b)
    ensures d <= e < |b| && Start(b, e) <= n < Start(b, e + 1)
    decreases |b| - d
  {
    if n < Start(b, d + 1) || d + 1 == |b| then d else DepthFrom(b, n, d + 1)
  }

  /** The depth of node `n`: the level whose id range contains it. */
  function Depth(b: seq<int>, n: int): (d: nat)
    requires ValidChoices(b) && 0 <= n < NodeCount(b)
    ensures d < |b| && Start(b, d) <= n < Start(b, d + 1)
  {
    DepthFrom(b, n, 0)
  }

  /** The first level has `b[0]` nodes; each further level multiplies by its
      branch factor. */
  lemma LevelSizeFrom(b: seq<int>, d: nat)
    requires ValidChoices(b) && d < |b|
    ensures LevelSize(b, d) == (if d == 0 then 1 else LevelSize(b, d - 1)) * b[d]
    ensures d > 0 ==> LevelSize(b, d - 1) > 0
  {
    if d == 0 {
      assert b[..1] == [b[0]];
      assert Prod([b[0]]) == b[0] * Prod([]);
    } else {
      LevelSizeStep(b, d - 1);
      LevelSizePositive(b, d - 1);
    }
  }

  /** `Start(b, d) + t` is the node at depth `d` with offset `t`. */
  lemma NodeAt(b: seq<int>, d: nat, t: int)
    requires ValidChoices(b) && d < |b| && 0 <= t < LevelSize(b, d)
    ensures 0 <= Start(b, d) + t < NodeCount(b)
    ensures Depth(b, Start(b, d) + t) == d && Offset(b, Start(b, d) + t) == t
  {
    DepthUnique(b, Start(b, d) + t, d);
  }

  /** A node's depth is determined by the id range it falls into. */
  lemma DepthUnique(b: seq<int>, n: int, d: nat)
    requires ValidChoices(b) && d < |b| && Start(b, d) <= n < Start(b, d + 1)
    ensures 0 <= n < NodeCount(b) && Depth(b, n) == d
  {
    StartMono(b, d + 1, |b|);
    StartMono(b, 0, d);
    var e := Depth(b, n);
    if e < d {
      StartMono(b, e, d);
    } else if d < e {
      StartMono(b, d, e);
    }
  }

  /** Position of node `n` inside its level. */
  function Offset(b: seq<int>, n: int): (j: int)
    requires ValidChoices(b) && 0 <= n < NodeCount(b)
    ensures 0 <= j < LevelSize(b, Depth(b, n))
  {
    n - Start(b, Depth(b, n))
  }

  /** The pool slot that node `n` takes its token from. */
  function PoolSlot(b: seq<int>, n: int): int
    requires ValidChoices(b) && 0 <= n < NodeCount(b)
  {
    var d := Depth(b, n);
    PoolBase(b, d) + Offset(b, n) % b[d]
  }

  /** The parent of a non-root-level node: same mixed-radix offset without its
      last digit, one level up. */
  function Parent(b: seq<int>, n: int): (p: int)
    requires ValidChoices(b) && 0 <= n < NodeCount(b) && Depth(b, n) > 0
    ensures 0 <= p < n
    ensures Depth(b, p) == Depth(b, n) - 1
    ensures Offset(b, p) == Offset(b, n) / b[Depth(b, n)]
  {
    var d := Depth(b, n);
    var j := Offset(b, n);
    LevelSizeStep(b, d - 1);
    DivBelow(j, LevelSize(b, d - 1), b[d]);
    DepthUnique(b, Start(b, d - 1) + j / b[d], d - 1);
    Start(b, d - 1) + j / b[d]
  }

  /** Node `n` attends to node `m` in the tree mask: `m` is `n` itself or one
      of its ancestors. */
  predicate Attends(b: seq<int>, n: int, m: int)
    requires ValidChoices(b) && 0 <= n < NodeCount(b)
    decreases Depth(b, n)
  {
    m == n || (Depth(b, n) > 0 && Attends(b, Parent(b, n), m))
  }

  /** The ancestors of `n` from the depth-0 node down to `n` itself. */
  function Ancestors(b: seq<int>, n: int): (a: seq<int>)
    requires ValidChoices(b) && 0 <= n < NodeCount(b)
    decreases Depth(b, n)
  {
    if Depth(b, n) == 0 then [n] else Ancestors(b, Parent(b, n)) + [n]
  }

  /** Node id of the entry of path `r` at depth `k` in `retrieve_indices`. */
  function RetrieveIndex(b: seq<int>, r: int, k: nat): int
    requires ValidChoices(b) && 0 <= r < Prod(b) && k < |b|
  {
    SpanFacts(b, k);
    Start(b, k) + r / Span(b, k)
  }

  // ---------------------------------------------------------------------
  // Sizes

  /** `tree_indices`, `medusa_position_ids` and the mask all have
      `NodeCount(b)` entries; the deepest level holds one node per path. */
  lemma NodeCountFacts(b: seq<int>)
    requires ValidChoices(b)
    ensures NodeCount(b) == Start(b, |b| - 1) + Prod(b)
    ensures NodeCount(b) >= |b|
  {
    assert b[..|b|] == b;
    NodeCountAtLeast(b, |b|);
  }

  lemma {:induction false} NodeCountAtLeast(b: seq<int>, d: nat)
    requires ValidChoices(b) && d <= |b|
    ensures Start(b, d) >= d
  {
    if d > 0 {
      NodeCountAtLeast(b, d - 1);
      LevelSizePositive(b, d - 1);
    }
  }

  /** Every node draws its token from the pool slots of its own head, so every
      `tree_indices` entry is below `sum(medusa_choices)`. */
  lemma PoolSlotInRange(b: seq<int>, n: int)
    requires ValidChoices(b) && 0 <= n < NodeCount(b)
    ensures PoolBase(b, Depth(b, n)) <= PoolSlot(b, n) < PoolBase(b, Depth(b, n) + 1)
    ensures 0 <= PoolSlot(b, n) < Sum(b)
  {
    var d := Depth(b, n);
    assert b[..d + 1] == b[..d] + [b[d]];
    SumAppend(b[..d], b[d]);
    PoolBaseBounds(b, d + 1);
    SumOfNonNegative(b[..d]);
  }

  lemma {:induction false} PoolBaseBounds(b: seq<int>, d: nat)
    requires ValidChoices(b) && d <= |b|
    ensures PoolBase(b, d) <= Sum(b)
    decreases |b| - d
  {
    if d == |b| {
      assert b[..d] == b;
    } else {
      PoolBaseBounds(b, d + 1);
      assert b[..d + 1] == b[..d] + [b[d]];
      SumAppend(b[..d], b[d]);
    }
  }

  // ---------------------------------------------------------------------
  // The attention mask

  /** Everything a node attends to has an id no larger than its own. */
  lemma {:induction false} AttendsBelow(b: seq<int>, n: int, m: int)
    requires ValidChoices(b) && 0 <= n < NodeCount(b)
    requires Attends(b, n, m)
    ensures 0 <= m <= n
    decreases Depth(b, n)
  {
    if m != n {
      AttendsBelow(b, Parent(b, n), m);
    }
  }

  /** `Ancestors(n)` lists one node per depth `0..Depth(n)`, ending in `n`. */
  lemma {:induction false} AncestorsFacts(b: seq<int>, n: int)
    requires ValidChoices(b) && 0 <= n < NodeCount(b)
    ensures |Ancestors(b, n)| == Depth(b, n) + 1
    ensures Ancestors(b, n)[Depth(b, n)] == n
    ensures forall k :: 0 <= k < |Ancestors(b, n)| ==>
              0 <= Ancestors(b, n)[k] < NodeCount(b) && Depth(b, Ancestors(b, n)[k]) == k
    decreases Depth(b, n)
  {
    if Depth(b, n) > 0 {
      AncestorsFacts(b, Parent(b, n));
    }
  }

  /** The nodes `n` attends to are exactly its ancestors and itself. */
  lemma {:induction false} AttendsIffAncestor(b: seq<int>, n: int, m: int)
    requires ValidChoices(b) && 0 <= n < NodeCount(b)
    ensures Attends(b, n, m) <==> m in Ancestors(b, n)
    decreases Depth(b, n)
  {
    if Depth(b, n) > 0 {
      AttendsIffAncestor(b, Parent(b, n), m);
      assert Ancestors(b, n) == Ancestors(b, Parent(b, n)) + [n];
    }
  }

  /** The columns where row `n` of the mask holds a one. */
  function MaskRow(b: seq<int>, n: int): set<int>
    requires ValidChoices(b) && 0 <= n < NodeCount(b)
  {
    set m | 0 <= m < NodeCount(b) && Attends(b, n, m)
  }

  /** Row `n` of the mask has exactly `Depth(n) + 1` ones. */
  lemma MaskRowCount(b: seq<int>, n: int)
    requires ValidChoices(b) && 0 <= n < NodeCount(b)
    ensures |MaskRow(b, n)| == Depth(b, n) + 1
  {
    AncestorsFacts(b, n);
    var a := Ancestors(b, n);
    var row := MaskRow(b, n);
    var chain := set m | m in a;
    forall m ensures m in row <==> m in chain {
      AttendsIffAncestor(b, n, m);
      if m in a {
        var k :| 0 <= k < |a| && a[k] == m;
      }
    }
    assert row == chain;
    DistinctCard(b, a);
  }

  /** Entries at distinct depths are distinct, so `|a|` entries make `|a|`
      different nodes. */
  lemma {:induction false} DistinctCard(b: seq<int>, a: seq<int>)
    requires ValidChoices(b)
    requires forall k :: 0 <= k < |a| ==> 0 <= a[k] < NodeCount(b) && Depth(b, a[k]) == k
    ensures |set m | m in a| == |a|
  {
    if a != [] {
      var last := |a| - 1;
      var init := a[..last];
      DistinctCard(b, init);
      var s := set m | m in init;
      assert a == init + [a[last]];
      assert (set m | m in a) == s + {a[last]};
    }
  }

  // ---------------------------------------------------------------------
  // Retrieve paths

  /** Column `k` of every path is a node at depth `k`. */
  lemma RetrieveAtDepth(b: seq<int>, r: int, k: nat)
    requires ValidChoices(b) && 0 <= r < Prod(b) && k < |b|
    ensures 0 <= RetrieveIndex(b, r, k) < NodeCount(b)
    ensures Depth(b, RetrieveIndex(b, r, k)) == k
    ensures Span(b, k) > 0 && Offset(b, RetrieveIndex(b, r, k)) == r / Span(b, k)
  {
    SpanFacts(b, k);
    DivBelow(r, LevelSize(b, k), Span(b, k));
    DepthUnique(b, RetrieveIndex(b, r, k), k);
  }

  /** The entry of a path at depth `k` is the parent of its entry at depth `k + 1`. */
  lemma RetrieveParent(b: seq<int>, r: int, k: nat)
    requires ValidChoices(b) && 0 <= r < Prod(b) && k + 1 < |b|
    ensures 0 <= RetrieveIndex(b, r, k + 1) < NodeCount(b)
    ensures Depth(b, RetrieveIndex(b, r, k + 1)) > 0
    ensures Parent(b, RetrieveIndex(b, r, k + 1)) == RetrieveIndex(b, r, k)
  {
    var n := RetrieveIndex(b, r, k + 1);
    var q := RetrieveIndex(b, r, k);
    RetrieveAtDepth(b, r, k + 1);
    RetrieveAtDepth(b, r, k);
    SpanFacts(b, k);
    var p := Parent(b, n);
    // both are depth-k nodes; compare their offsets
    DivDiv(r, Span(b, k + 1), b[k + 1]);
    assert Span(b, k + 1) * b[k + 1] == Span(b, k);
    assert Offset(b, p) == Offset(b, q);
    SameOffset(b, p, q);
  }

  /** Two nodes of the same depth and offset are the same node. */
  lemma SameOffset(b: seq<int>, p: int, q: int)
    requires ValidChoices(b) && 0 <= p < NodeCount(b) && 0 <= q < NodeCount(b)
    requires Depth(b, p) == Depth(b, q) && Offset(b, p) == Offset(b, q)
    ensures p == q
  {
  }

  /** Row `r` of `retrieve_indices` is exactly the ancestor chain of its
      leaf: one node per depth, each the parent of the next. */
  lemma RetrieveRowIsChain(b: seq<int>, r: int)
    requires ValidChoices(b) && 0 <= r < Prod(b)
    ensures 0 <= RetrieveIndex(b, r, |b| - 1) < NodeCount(b)
    ensures Ancestors(b, RetrieveIndex(b, r, |b| - 1))
            == seq(|b|, k requires 0 <= k < |b| => RetrieveIndex(b, r, k))
  {
    RetrieveAtDepth(b, r, |b| - 1);
    RetrieveChainPrefix(b, r, |b| - 1);
  }

  lemma {:induction false} RetrieveChainPrefix(b: seq<int>, r: int, d: nat)
    requires ValidChoices(b) && 0 <= r < Prod(b) && d < |b|
    ensures 0 <= RetrieveIndex(b, r, d) < NodeCount(b)
    ensures Ancestors(b, RetrieveIndex(b, r, d))
            == seq(d + 1, k requires 0 <= k <= d => RetrieveIndex(b, r, k))
  {
    RetrieveAtDepth(b, r, d);
    var n := RetrieveIndex(b, r, d);
    var row := seq(d + 1, k requires 0 <= k <= d => RetrieveIndex(b, r, k));
    if d == 0 {
      assert Ancestors(b, n) == [n];
    } else {
      RetrieveParent(b, r, d - 1);
      RetrieveChainPrefix(b, r, d - 1);
      assert Ancestors(b, n) == Ancestors(b, Parent(b, n)) + [n];
      assert row == seq(d, k requires 0 <= k <= d - 1 => RetrieveIndex(b, r, k)) + [n];
    }
  }

  /** The last column is `Start(b, |b| - 1) + r`: a bijection from the
      `Prod(b)` paths onto the deepest level, so all rows are distinct. */
  lemma RetrieveLastColumn(b: seq<int>, r: int)
    requires ValidChoices(b) && 0 <= r < Prod(b)
    ensures RetrieveIndex(b, r, |b| - 1) == Start(b, |b| - 1) + r
    ensures LevelSize(b, |b| - 1) == Prod(b)
  {
    SpanFacts(b, |b| - 1);
  }

  /** Different paths differ in their leaf. */
  lemma RetrieveRowsDistinct(b: seq<int>, r1: int, r2: int)
    requires ValidChoices(b) && 0 <= r1 < Prod(b) && 0 <= r2 < Prod(b) && r1 != r2
    ensures RetrieveIndex(b, r1, |b| - 1) != RetrieveIndex(b, r2, |b| - 1)
  {
    RetrieveLastColumn(b, r1);
    RetrieveLastColumn(b, r2);
  }

  /** Every deepest-level node is the leaf of exactly the path with its offset. */
  lemma LeafHasPath(b: seq<int>, n: int)
    requires ValidChoices(b) && 0 <= n < NodeCount(b) && Depth(b, n) == |b| - 1
    ensures 0 <= Offset(b, n) < Prod(b)
    ensures RetrieveIndex(b, Offset(b, n), |b| - 1) == n
  {
    var j := Offset(b, n);
    assert b[..|b|] == b;
    assert j < Prod(b);
    RetrieveLastColumn(b, j);
  }
}
