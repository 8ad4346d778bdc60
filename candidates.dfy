/** `generate_candidates`: the greedy root token and the per-head top-k
    proposals, combined into every root-to-leaf path (`candidates`) and laid
    out in tree order (`tree_candidates`). The top-k index lists are inputs:
    which of several equal scores torch returns first is not visible. */
module Candidates {
  import opened Arith
  import opened TensorOps
  import opened TreeTopology

  /** `torch.cartesian_prod`: every way of picking one element per list, the
      last list varying fastest. */
  function CartesianProduct(lists: seq<seq<int>>): (rows: seq<seq<int>>)
    ensures |rows| == Prod(Sizes(lists))
    ensures forall r :: 0 <= r < |rows| ==> |rows[r]| == |lists|
    ensures forall r, i :: 0 <= r < |rows| && 0 <= i < |lists| ==> rows[r][i] in lists[i]
    decreases |lists|
  {
    if lists == [] then [[]]
    else
      var tail := CartesianProduct(lists[1..]);
      assert Sizes(lists) == [|lists[0]|] + Sizes(lists[1..]);
      var rows := Cross(lists[0], tail);
      assert forall r, i :: 0 <= r < |rows| && 0 <= i < |lists| ==> rows[r][i] in lists[i] by {
        forall r, i | 0 <= r < |rows| && 0 <= i < |lists| ensures rows[r][i] in lists[i] {
          var row := PickRow(lists[0], tail, r);
          if i > 0 {
            assert row[i] == tail[r % |tail|][i - 1];
            assert lists[1..][i - 1] == lists[i];
          }
        }
      }
      rows
  }

  /** Every element of `head` in front of every row of `tail`. */
  function Cross(head: seq<int>, tail: seq<seq<int>>): (rows: seq<seq<int>>)
    ensures |rows| == |head| * |tail|
  {
    seq(|head| * |tail|, r requires 0 <= r < |head| * |tail| => PickRow(head, tail, r))
  }

  /** Row `r` of the product of `head` with the rows `tail`: the element of
      `head` picked by the leading digit, then row `r % |tail|` of `tail`. */
  function PickRow(head: seq<int>, tail: seq<seq<int>>, r: int): (row: seq<int>)
    requires 0 <= r < |head| * |tail|
    ensures |tail| > 0 && 0 <= r / |tail| < |head|
    ensures row == [head[r / |tail|]] + tail[r % |tail|]
  {
    FactorsPositive(|head|, |tail|, r);
    DivBelow(r, |head|, |tail|);
    [head[r / |tail|]] + tail[r % |tail|]
  }

  /** Row `r` of the product is picked from the first list and the product
      of the rest. */
  lemma CartesianRow(lists: seq<seq<int>>, r: int)
    requires |lists| > 0 && 0 <= r < |CartesianProduct(lists)|
    ensures |CartesianProduct(lists[1..])| > 0
    ensures 0 <= r < |lists[0]| * |CartesianProduct(lists[1..])|
    ensures CartesianProduct(lists)[r] == PickRow(lists[0], CartesianProduct(lists[1..]), r)
  {
    FactorsPositive(|lists[0]|, |CartesianProduct(lists[1..])|, r);
  }

  /** A product of two naturals that exceeds some `r >= 0` has positive factors. */
  lemma FactorsPositive(x: nat, y: nat, r: int)
    requires 0 <= r < x * y
    ensures x > 0 && y > 0
  {
    ZeroFactor(x, y);
  }

  lemma ZeroFactor(x: nat, y: nat)
    ensures x == 0 || y == 0 ==> x * y == 0
  {
  }

  /** Row `r`, column `i` of the product: digit `i` of `r` written in the
      mixed radix given by the list sizes. */
  lemma {:induction false} CartesianAt(lists: seq<seq<int>>, r: int, i: nat)
    requires AllPositive(Sizes(lists))
    requires 0 <= r < Prod(Sizes(lists)) && i < |lists|
    ensures Prod(Sizes(lists)[i + 1..]) > 0 && |lists[i]| > 0
    ensures CartesianProduct(lists)[r][i]
            == lists[i][(r / Prod(Sizes(lists)[i + 1..])) % |lists[i]|]
  {
    var sizes := Sizes(lists);
    var tailSizes := Sizes(lists[1..]);
    assert sizes[1..] == tailSizes;
    ProdPositive(sizes[i + 1..]);
    CartesianRow(lists, r);
    var t := |CartesianProduct(lists[1..])|;
    var row := PickRow(lists[0], CartesianProduct(lists[1..]), r);
    if i == 0 {
      DivModUnique(r / t, |lists[0]|, 0, r / t);
    } else {
      assert tailSizes[i..] == sizes[i + 1..];
      var m0 := TailWeights(lists, i);
      CartesianAt(lists[1..], r % t, i - 1);
      DigitOfRemainder(r, |lists[i]|, m0, Prod(sizes[i + 1..]));
    }
  }

  /** The number of rows of the product of `lists[1..]` splits as (sizes of
      `lists[1..i-1]`) times `|lists[i]|` times (sizes after `i`). */
  lemma TailWeights(lists: seq<seq<int>>, i: nat) returns (m0: int)
    requires AllPositive(Sizes(lists)) && 0 < i < |lists|
    ensures m0 > 0
    ensures |CartesianProduct(lists[1..])| == (m0 * |lists[i]|) * Prod(Sizes(lists)[i + 1..])
  {
    var tailSizes := Sizes(lists[1..]);
    assert AllPositive(tailSizes);
    assert tailSizes[i..] == Sizes(lists)[i + 1..];
    ProdSplit(tailSizes, i);
    assert tailSizes[..i] == tailSizes[..i - 1] + [|lists[i]|];
    ProdAppend(tailSizes[..i - 1], |lists[i]|);
    m0 := Prod(tailSizes[..i - 1]);
    ProdPositive(tailSizes[..i - 1]);
  }

  /** Dropping the leading digits of `r` (taking it modulo `m0 * base * s`)
      does not change the digit of weight `s` in base `base`. */
  lemma DigitOfRemainder(r: int, base: int, m0: int, s: int)
    requires r >= 0 && base > 0 && m0 > 0 && s > 0
    ensures ((r % ((m0 * base) * s)) / s) % base == (r / s) % base
  {
    MulPositive(m0, base);
    ModDivMod(r, m0 * base, s);
    assert m0 * base == base * m0;
    ModMod(r / s, base, m0);
  }

  /** The flat candidate pool `torch.cat(candidates)`: the root, then each
      head's top-k tokens. */
  function Pool(root: int, headTopk: seq<seq<int>>): seq<int>
  {
    Cat([[root]] + headTopk)
  }

  /** What `generate_candidates` returns. */
  datatype Proposal = Proposal(candidates: seq<seq<int>>, treeCandidates: seq<int>)

  /** `generate_candidates` for batch size 1. `logits` holds the base model's
      scores (one row per position), `headTopk[h]` the top-k token ids of
      head `h` at the last position. */
  function GenerateCandidates(logits: seq<seq<int>>, headTopk: seq<seq<int>>, treeIndices: seq<int>)
    : (p: Proposal)
    requires |logits| > 0 && |logits[|logits| - 1]| > 0
    requires forall n :: 0 <= n < |treeIndices| ==>
               0 <= treeIndices[n] < |Pool(Argmax(logits[|logits| - 1]), headTopk)|
    ensures |p.candidates| == Prod(Sizes(headTopk))
    ensures forall r :: 0 <= r < |p.candidates| ==>
              |p.candidates[r]| == 1 + |headTopk| &&
              p.candidates[r][0] == Argmax(logits[|logits| - 1])
    ensures |p.treeCandidates| == |treeIndices|
    ensures forall n :: 0 <= n < |treeIndices| && treeIndices[n] == 0 ==>
              p.treeCandidates[n] == Argmax(logits[|logits| - 1])
  {
    var root := Argmax(logits[|logits| - 1]);
    var lists := [[root]] + headTopk;
    var pool := Pool(root, headTopk);
    var candidates := CartesianProduct(lists);
    assert Sizes(lists) == [1] + Sizes(headTopk);
    assert Prod(Sizes(lists)) == Prod(Sizes(headTopk));
    var tree := seq(|treeIndices|, n requires 0 <= n < |treeIndices| => pool[treeIndices[n]]);
    assert pool[0] == root;
    assert forall r :: 0 <= r < |candidates| ==> candidates[r][0] == root by {
      forall r | 0 <= r < |candidates| ensures candidates[r][0] == root {
        CartesianRoot(lists, r);
      }
    }
    Proposal(candidates, tree)
  }

  /** Column 0 of the product is the only element of a singleton first list. */
  lemma CartesianRoot(lists: seq<seq<int>>, r: int)
    requires |lists| > 0 && |lists[0]| == 1
    requires 0 <= r < |CartesianProduct(lists)|
    ensures |CartesianProduct(lists)[r]| > 0
    ensures CartesianProduct(lists)[r][0] == lists[0][0]
  {
    CartesianRow(lists, r);
  }

  /** The tree and the product agree: with branch factors `[1] + topk` and the
      tree indices `generate_medusa_buffers` builds, reading the tree along a
      row of `retrieve_indices` gives exactly that row of `candidates`. */
  lemma TreeMatchesCartesian(logits: seq<seq<int>>, headTopk: seq<seq<int>>, treeIndices: seq<int>,
                             r: int, i: nat)
    requires |logits| > 0 && |logits[|logits| - 1]| > 0
    requires AllPositive(Sizes(headTopk))
    requires |treeIndices| == NodeCount([1] + Sizes(headTopk))
    requires forall n :: 0 <= n < |treeIndices| ==>
               treeIndices[n] == PoolSlot([1] + Sizes(headTopk), n)
    requires 0 <= r < Prod(Sizes(headTopk)) && i <= |headTopk|
    ensures forall n :: 0 <= n < |treeIndices| ==>
              0 <= treeIndices[n] < |Pool(Argmax(logits[|logits| - 1]), headTopk)|
    ensures 0 <= RetrieveIndex([1] + Sizes(headTopk), r, i) < |treeIndices|
    ensures GenerateCandidates(logits, headTopk, treeIndices).treeCandidates[RetrieveIndex([1] + Sizes(headTopk), r, i)]
            == GenerateCandidates(logits, headTopk, treeIndices).candidates[r][i]
  {
    var b := [1] + Sizes(headTopk);
    var root := Argmax(logits[|logits| - 1]);
    var lists := [[root]] + headTopk;
    assert Sizes(lists) == b;
    assert AllPositive(b);
    assert Prod(b) == Prod(Sizes(headTopk));
    CatLength(lists);
    forall n | 0 <= n < |treeIndices|
      ensures 0 <= treeIndices[n] < |Pool(root, headTopk)|
    {
      PoolSlotInRange(b, n);
    }
    RetrieveAtDepth(b, r, i);
    var node := RetrieveIndex(b, r, i);
    var y := (r / Span(b, i)) % b[i];
    assert treeIndices[node] == PoolBase(b, i) + y;
    assert Span(b, i) == Prod(Sizes(lists)[i + 1..]);
    CatAt(lists, i, y);
    CartesianAt(lists, r, i);
  }
}
