/** The handful of torch tensor operations that the Medusa bookkeeping is built
    from, on 1-D integer tensors modelled as sequences. */
module TensorOps {
  import opened Arith

  /** `torch.arange(lo, hi)`. */
  function Arange(lo: int, hi: int): (r: seq<int>)
    requires lo <= hi
    ensures |r| == hi - lo
    ensures forall t :: 0 <= t < |r| ==> r[t] == lo + t
  {
    seq(hi - lo, t => lo + t)
  }

  /** `[x] * n` on a Python list. */
  function Fill(x: int, n: nat): (r: seq<int>)
    ensures |r| == n
    ensures forall t :: 0 <= t < n ==> r[t] == x
  {
    seq(n, _ => x)
  }

  /** `s.repeat(k, 1).flatten()`: `k` copies of `s`, one after the other. */
  function Tile(s: seq<int>, k: nat): (r: seq<int>)
    ensures |r| == |s| * k
    ensures forall t :: 0 <= t < |r| ==> r[t] == s[t % |s|]
  {
    if k == 0 then []
    else
      var prev := Tile(s, k - 1);
      var r := prev + s;
      assert forall t :: |prev| <= t < |r| ==> r[t] == s[t % |s|] by {
        forall t | |prev| <= t < |r| ensures r[t] == s[t % |s|] {
          DivModUnique(t, |s|, k - 1, t - |prev|);
        }
      }
      r
  }

  /** `s.repeat(k, 1).transpose(0, 1).flatten()`: every element of `s`
      repeated `k` times in place. */
  function RepeatInterleave(s: seq<int>, k: nat): (r: seq<int>)
    requires k > 0
    ensures |r| == |s| * k
    ensures forall t :: 0 <= t < |r| ==> r[t] == s[t / k]
  {
    if s == [] then []
    else
      var rest := RepeatInterleave(s[1..], k);
      InterleaveStep(s, k, rest);
      Fill(s[0], k) + rest
  }

  /** One step of `RepeatInterleave`: `k` copies of the head in front of the
      interleaved tail. */
  lemma InterleaveStep(s: seq<int>, k: nat, rest: seq<int>)
    requires k > 0 && s != [] && |rest| == (|s| - 1) * k
    requires forall u :: 0 <= u < |rest| ==> rest[u] == s[1..][u / k]
    ensures |Fill(s[0], k) + rest| == |s| * k
    ensures forall t :: 0 <= t < |Fill(s[0], k) + rest| ==>
              0 <= t / k < |s| && (Fill(s[0], k) + rest)[t] == s[t / k]
  {
    assert |s| * k == k + (|s| - 1) * k;
    forall t | 0 <= t < |Fill(s[0], k) + rest|
      ensures 0 <= t / k < |s| && (Fill(s[0], k) + rest)[t] == s[t / k]
    {
      InterleaveAt(s, k, rest, t);
    }
  }

  lemma InterleaveAt(s: seq<int>, k: nat, rest: seq<int>, t: nat)
    requires k > 0 && s != [] && |rest| == (|s| - 1) * k
    requires forall u :: 0 <= u < |rest| ==> rest[u] == s[1..][u / k]
    requires t < k + |rest|
    ensures 0 <= t / k < |s|
    ensures (Fill(s[0], k) + rest)[t] == s[t / k]
  {
    if t < k {
      DivModUnique(t, k, 0, t);
    } else {
      var u := t - k;
      DivBelow(u, |s| - 1, k);
      DivModUnique(u, k, u / k, u % k);
      DivModUnique(t, k, u / k + 1, u % k);
    }
  }

  /** `torch.cumprod(s, dim=0)`. */
  function CumProd(s: seq<int>): seq<int>
  {
    seq(|s|, i requires 0 <= i < |s| => Prod(s[..i + 1]))
  }

  /** `torch.cumsum(s, dim=0)`. */
  function CumSum(s: seq<int>): seq<int>
  {
    seq(|s|, i requires 0 <= i < |s| => Sum(s[..i + 1]))
  }

  /** `torch.cat` of a list of 1-D tensors. */
  function Cat(parts: seq<seq<int>>): seq<int>
  {
    if parts == [] then [] else parts[0] + Cat(parts[1..])
  }

  /** The lengths of a list of 1-D tensors. */
  function Sizes(parts: seq<seq<int>>): (r: seq<int>)
    ensures |r| == |parts|
    ensures forall i :: 0 <= i < |parts| ==> r[i] == |parts[i]|
  {
    seq(|parts|, i requires 0 <= i < |parts| => |parts[i]|)
  }

  /** Element `y` of part `i` sits in the concatenation right after all
      elements of the parts before it. */
  lemma {:induction false} CatAt(parts: seq<seq<int>>, i: nat, y: nat)
    requires i < |parts| && y < |parts[i]|
    ensures |Cat(parts)| == Sum(Sizes(parts))
    ensures 0 <= Sum(Sizes(parts)[..i]) && Sum(Sizes(parts)[..i]) + y < |Cat(parts)|
    ensures Cat(parts)[Sum(Sizes(parts)[..i]) + y] == parts[i][y]
  {
    CatLength(parts);
    SumPrefixBound(Sizes(parts), i);
    assert Sizes(parts)[1..] == Sizes(parts[1..]);
    assert Cat(parts) == parts[0] + Cat(parts[1..]);
    if i == 0 {
      assert Sizes(parts)[..0] == [];
    } else {
      CatAt(parts[1..], i - 1, y);
      var before := Sizes(parts[1..])[..i - 1];
      assert Sizes(parts)[..i] == [|parts[0]|] + before;
      SumConcat([|parts[0]|], before);
      assert Sum([|parts[0]|]) == |parts[0]|;
      assert Sum(Sizes(parts)[..i]) == |parts[0]| + Sum(before);
    }
  }

  lemma {:induction false} CatLength(parts: seq<seq<int>>)
    ensures |Cat(parts)| == Sum(Sizes(parts))
  {
    if parts != [] {
      assert Sizes(parts)[1..] == Sizes(parts[1..]);
      CatLength(parts[1..]);
    }
  }

  /** A prefix sum of non-negative sizes is at most the whole sum. */
  lemma {:induction false} SumPrefixBound(s: seq<int>, k: nat)
    requires k <= |s|
    requires forall t :: 0 <= t < |s| ==> s[t] >= 0
    ensures 0 <= Sum(s[..k]) <= Sum(s)
    ensures k < |s| ==> Sum(s[..k]) + s[k] <= Sum(s)
    decreases |s| - k
  {
    SumOfNonNegative(s[..k]);
    if k < |s| {
      SumPrefixBound(s, k + 1);
      assert s[..k + 1] == s[..k] + [s[k]];
      SumAppend(s[..k], s[k]);
    } else {
      assert s[..k] == s;
    }
  }

  /** `torch.argmax` on a 1-D tensor: the first index of a maximum. */
  function Argmax(s: seq<int>): (k: nat)
    requires |s| > 0
    ensures k < |s|
    ensures forall t :: 0 <= t < |s| ==> s[t] <= s[k]
    ensures forall t :: 0 <= t < k ==> s[t] < s[k]
  {
    if |s| == 1 then 0
    else
      var k := Argmax(s[..|s| - 1]);
      if s[|s| - 1] > s[k] then |s| - 1 else k
  }

  /** `.max()` on a 1-D tensor. */
  function Max(s: seq<int>): (m: int)
    requires |s| > 0
    ensures m in s
    ensures forall t :: 0 <= t < |s| ==> s[t] <= m
  {
    if |s| == 1 then s[0]
    else
      var m := Max(s[1..]);
      if s[0] >= m then s[0] else m
  }
}
