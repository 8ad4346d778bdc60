/** The greedy (`temperature == 0`) branch of `evaluate_posterior`: how many
    proposed tokens of each candidate path the base model confirms, and which
    path to keep. Scores are integers; only their order matters here. */
module Posterior {
  import opened Arith
  import opened TensorOps

  /** Number of leading ones of a 0/1 sequence. */
  function LeadingOnes(mask: seq<int>): (k: nat)
    ensures k <= |mask|
    ensures forall i :: 0 <= i < k ==> mask[i] == 1
    ensures k < |mask| ==> mask[k] != 1
  {
    if mask == [] || mask[0] != 1 then 0 else 1 + LeadingOnes(mask[1..])
  }

  predicate IsBinary(mask: seq<int>)
  {
    forall i :: 0 <= i < |mask| ==> mask[i] == 0 || mask[i] == 1
  }

  /** A prefix product of a 0/1 sequence is 1 exactly while the prefix is all ones. */
  lemma {:induction false} PrefixProd(mask: seq<int>, j: nat)
    requires IsBinary(mask) && j <= |mask|
    ensures Prod(mask[..j]) == if j <= LeadingOnes(mask) then 1 else 0
  {
    if j > 0 {
      PrefixProd(mask, j - 1);
      assert mask[..j] == mask[..j - 1] + [mask[j - 1]];
      ProdAppend(mask[..j - 1], mask[j - 1]);
    }
  }

  /** The sum of the first `j` running products counts the leading ones among
      the first `j` entries. */
  lemma {:induction false} PrefixSum(mask: seq<int>, j: nat)
    requires IsBinary(mask) && j <= |mask|
    ensures Sum(CumProd(mask)[..j]) == if j <= LeadingOnes(mask) then j else LeadingOnes(mask)
  {
    if j == 0 {
      assert CumProd(mask)[..0] == [];
    } else {
      PrefixSum(mask, j - 1);
      PrefixProd(mask, j);
      assert CumProd(mask)[..j] == CumProd(mask)[..j - 1] + [Prod(mask[..j])];
      SumAppend(CumProd(mask)[..j - 1], Prod(mask[..j]));
    }
  }

  /** `torch.cumprod(mask).sum()` on a 0/1 row is its number of leading ones. */
  lemma CumProdSumIsLeadingOnes(mask: seq<int>)
    requires IsBinary(mask)
    ensures Sum(CumProd(mask)) == LeadingOnes(mask)
  {
    PrefixSum(mask, |mask|);
    assert CumProd(mask)[..|mask|] == CumProd(mask);
  }

  /** `logits[p]` holds one score vector per position of path `p`, and every
      candidate path has the same length `L >= 1`. */
  predicate WellShaped(logits: seq<seq<seq<int>>>, candidates: seq<seq<int>>)
  {
    |candidates| > 0 && |logits| == |candidates| &&
    (forall p :: 0 <= p < |candidates| ==>
       |candidates[p]| == |candidates[0]| && |logits[p]| == |candidates[0]|) &&
    |candidates[0]| > 0 &&
    (forall p, i :: 0 <= p < |logits| && 0 <= i < |logits[p]| ==> |logits[p][i]| > 0)
  }

  /** `posterior_mask[p]`: 1 where the proposed token at position `i + 1`
      equals the base model's greedy choice after position `i`. */
  function PosteriorMask(logits: seq<seq<seq<int>>>, candidates: seq<seq<int>>, p: nat): (mask: seq<int>)
    requires WellShaped(logits, candidates) && p < |candidates|
    ensures |mask| == |candidates[0]| - 1
    ensures IsBinary(mask)
  {
    seq(|candidates[0]| - 1, i requires 0 <= i < |candidates[0]| - 1 =>
      if candidates[p][i + 1] == Argmax(logits[p][i]) then 1 else 0)
  }

  /** The length of the longest prefix of path `p`'s proposals that greedy
      decoding of the base model agrees with. */
  function MatchLength(logits: seq<seq<seq<int>>>, candidates: seq<seq<int>>, p: nat): (k: nat)
    requires WellShaped(logits, candidates) && p < |candidates|
    ensures k <= |candidates[0]| - 1
  {
    LeadingOnes(PosteriorMask(logits, candidates, p))
  }

  /** `MatchLength` is the longest agreeing prefix: every position before it
      agrees and the position at it (if any) does not. */
  lemma MatchLengthIsLongestPrefix(logits: seq<seq<seq<int>>>, candidates: seq<seq<int>>, p: nat)
    requires WellShaped(logits, candidates) && p < |candidates|
    ensures forall i :: 0 <= i < MatchLength(logits, candidates, p) ==>
              candidates[p][i + 1] == Argmax(logits[p][i])
    ensures MatchLength(logits, candidates, p) < |candidates[0]| - 1 ==>
              candidates[p][MatchLength(logits, candidates, p) + 1]
              != Argmax(logits[p][MatchLength(logits, candidates, p)])
  {
    var mask := PosteriorMask(logits, candidates, p);
    var k := MatchLength(logits, candidates, p);
    forall i | 0 <= i < k ensures candidates[p][i + 1] == Argmax(logits[p][i]) {
      assert mask[i] == 1;
    }
    if k < |candidates[0]| - 1 {
      assert mask[k] != 1;
    }
  }

  /** `candidates_accept_length`, computed as the source does. */
  function AcceptLengths(logits: seq<seq<seq<int>>>, candidates: seq<seq<int>>): (lengths: seq<int>)
    requires WellShaped(logits, candidates)
    ensures |lengths| == |candidates|
    ensures forall p :: 0 <= p < |candidates| ==> lengths[p] == MatchLength(logits, candidates, p)
  {
    var lengths := seq(|candidates|, p requires 0 <= p < |candidates| =>
      Sum(CumProd(PosteriorMask(logits, candidates, p))));
    assert forall p :: 0 <= p < |candidates| ==> lengths[p] == MatchLength(logits, candidates, p) by {
      forall p | 0 <= p < |candidates| ensures lengths[p] == MatchLength(logits, candidates, p) {
        CumProdSumIsLeadingOnes(PosteriorMask(logits, candidates, p));
      }
    }
    lengths
  }

  /** What `evaluate_posterior` returns. */
  datatype Acceptance = Acceptance(bestCandidate: nat, acceptLength: nat)

  /** `evaluate_posterior` with `temperature == 0`. */
  function EvaluatePosteriorGreedy(logits: seq<seq<seq<int>>>, candidates: seq<seq<int>>): (a: Acceptance)
    requires WellShaped(logits, candidates)
    ensures a.bestCandidate < |candidates|
    ensures a.acceptLength <= |candidates[0]| - 1
    ensures forall p :: 0 <= p < |candidates| ==> MatchLength(logits, candidates, p) <= a.acceptLength
    ensures a.acceptLength == MatchLength(logits, candidates, a.bestCandidate)
    ensures a.acceptLength == 0 ==> a.bestCandidate == 0
    ensures a.acceptLength > 0 ==>
              forall p :: 0 <= p < a.bestCandidate ==> MatchLength(logits, candidates, p) < a.acceptLength
  {
    var lengths := AcceptLengths(logits, candidates);
    var acceptLength := Max(lengths);
    if acceptLength == 0 then
      Acceptance(0, 0)
    else
      Acceptance(Argmax(lengths), acceptLength)
  }
}
