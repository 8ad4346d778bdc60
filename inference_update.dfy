/** `update_inference_inputs` (without the model's own cache update) and
    `reset_past_key_values`: what a decoding step appends to the sequence,
    how finished sequences are padded, and the new-token counter. */
module InferenceUpdate {
  import opened TensorOps
  import opened Posterior
  import opened Arith
  import opened TreeTopology

  datatype Option<T> = None | Some(value: T)

  datatype Result<T> = Success(value: T) | Failure(error: string)

  /** `candidates[best][: accept_length + 1]`, followed by the extra token
      predicted from the base logits when `use_base_logits` is set. */
  function NextTokens(candidates: seq<seq<int>>, best: nat, acceptLength: nat,
                      useBaseLogits: bool, bonusToken: int): (tokens: seq<int>)
    requires best < |candidates| && acceptLength < |candidates[best]|
    ensures |tokens| == acceptLength + (if useBaseLogits then 2 else 1)
    ensures tokens[..acceptLength + 1] == candidates[best][..acceptLength + 1]
    ensures useBaseLogits ==> tokens[acceptLength + 1] == bonusToken
  {
    var accepted := candidates[best][..acceptLength + 1];
    if useBaseLogits then accepted + [bonusToken] else accepted
  }

  /** Under greedy acceptance, the appended tokens after the first are
      exactly what greedy decoding of the base model would have produced. */
  lemma AcceptedTokensAreGreedy(logits: seq<seq<seq<int>>>, candidates: seq<seq<int>>,
                                useBaseLogits: bool, bonusToken: int)
    requires WellShaped(logits, candidates)
    ensures EvaluatePosteriorGreedy(logits, candidates).acceptLength
            < |candidates[EvaluatePosteriorGreedy(logits, candidates).bestCandidate]|
    ensures var a := EvaluatePosteriorGreedy(logits, candidates);
            var tokens := NextTokens(candidates, a.bestCandidate, a.acceptLength, useBaseLogits, bonusToken);
            forall k :: 1 <= k <= a.acceptLength ==> tokens[k] == Argmax(logits[a.bestCandidate][k - 1])
  {
    var a := EvaluatePosteriorGreedy(logits, candidates);
    MatchLengthIsLongestPrefix(logits, candidates, a.bestCandidate);
    var tokens := NextTokens(candidates, a.bestCandidate, a.acceptLength, useBaseLogits, bonusToken);
    forall k | 1 <= k <= a.acceptLength
      ensures tokens[k] == Argmax(logits[a.bestCandidate][k - 1])
    {
      assert tokens[k] == tokens[..a.acceptLength + 1][k];
    }
  }

  /** `next_tokens * unfinished + pad * (1 - unfinished)`. */
  function PadFinished(tokens: seq<int>, unfinished: int, pad: int): (padded: seq<int>)
    ensures |padded| == |tokens|
  {
    seq(|tokens|, i requires 0 <= i < |tokens| => tokens[i] * unfinished + pad * (1 - unfinished))
  }

  /** An unfinished sequence keeps its tokens; a finished one gets only pads. */
  lemma PadFinishedCases(tokens: seq<int>, unfinished: int, pad: int)
    requires unfinished == 0 || unfinished == 1
    ensures unfinished == 1 ==> PadFinished(tokens, unfinished, pad) == tokens
    ensures unfinished == 0 ==> PadFinished(tokens, unfinished, pad) == seq(|tokens|, _ => pad)
  {
    if unfinished == 1 {
      assert forall i :: 0 <= i < |tokens| ==> PadFinished(tokens, unfinished, pad)[i] == tokens[i];
    } else {
      assert forall i :: 0 <= i < |tokens| ==> PadFinished(tokens, unfinished, pad)[i] == pad;
    }
  }

  /** `retrieve_indices[best, : accept_length + 1] + prev_input_len`: where the
      accepted tree nodes land once appended after the old input. */
  function SelectIndices(retrieveIndices: seq<seq<int>>, best: nat, acceptLength: nat,
                         prevInputLen: int): (indices: seq<int>)
    requires best < |retrieveIndices| && acceptLength < |retrieveIndices[best]|
    ensures |indices| == acceptLength + 1
    ensures forall k :: 0 <= k <= acceptLength ==>
              indices[k] - prevInputLen == retrieveIndices[best][k]
  {
    seq(acceptLength + 1, k requires 0 <= k <= acceptLength => retrieveIndices[best][k] + prevInputLen)
  }

  /** When `retrieve_indices` is the buffer `generate_medusa_buffers` builds,
      the tree rows handed to the cache update are the accepted node and its
      ancestors, from the depth-0 node down, shifted by the old input length. */
  lemma SelectIndicesFollowPath(b: seq<int>, retrieveIndices: seq<seq<int>>, best: nat,
                                acceptLength: nat, prevInputLen: int)
    requires ValidChoices(b) && best < Prod(b) && acceptLength < |b|
    requires best < |retrieveIndices| && acceptLength < |retrieveIndices[best]|
    requires forall k :: 0 <= k <= acceptLength ==> retrieveIndices[best][k] == RetrieveIndex(b, best, k)
    ensures 0 <= RetrieveIndex(b, best, acceptLength) < NodeCount(b)
    ensures |Ancestors(b, RetrieveIndex(b, best, acceptLength))| == acceptLength + 1
    ensures forall k :: 0 <= k <= acceptLength ==>
              SelectIndices(retrieveIndices, best, acceptLength, prevInputLen)[k] - prevInputLen
              == Ancestors(b, RetrieveIndex(b, best, acceptLength))[k]
  {
    RetrieveChainPrefix(b, best, acceptLength);
  }

  /** What a successful step hands back: the base model's scores at the last
      accepted position of the chosen path, the appended tokens, and the
      positions passed on to the model's cache update. */
  datatype StepOutput = StepOutput(logits: seq<int>, nextTokens: seq<int>, selectIndices: seq<int>)

  /** The sequence being generated and the count of tokens produced so far. */
  class DecodeState {
    var inputIds: seq<int>
    var newToken: int

    constructor (inputIds: seq<int>, newToken: int)
      ensures this.inputIds == inputIds && this.newToken == newToken
    {
      this.inputIds := inputIds;
      this.newToken := newToken;
    }

    /** `update_inference_inputs`. `bonusToken` is the base model's greedy
        token used when `use_base_logits` is set; `eosTokenId`/`padTokenId`
        are the optional special tokens, `unfinished` the batch's
        `unfinished_sequences` entry. */
    method UpdateInferenceInputs(candidates: seq<seq<int>>, best: nat, acceptLength: nat,
                                 retrieveIndices: seq<seq<int>>, logits: seq<seq<seq<int>>>,
                                 eosTokenId: Option<int>, padTokenId: Option<int>,
                                 unfinished: int, useBaseLogits: bool, bonusToken: int)
      returns (r: Result<StepOutput>)
      requires best < |candidates| && acceptLength < |candidates[best]|
      requires best < |retrieveIndices| && acceptLength < |retrieveIndices[best]|
      requires best < |logits| && acceptLength < |logits[best]|
      modifies this
      ensures r.Failure? <==> eosTokenId.Some? && padTokenId.None?
      ensures r.Failure? ==> inputIds == old(inputIds) && newToken == old(newToken)
      ensures r.Success? ==>
                r.value.nextTokens ==
                  (var tokens := NextTokens(candidates, best, acceptLength, useBaseLogits, bonusToken);
                   if eosTokenId.Some? then PadFinished(tokens, unfinished, padTokenId.value) else tokens)
      ensures r.Success? ==> inputIds == old(inputIds) + r.value.nextTokens
      ensures r.Success? ==> newToken == old(newToken) + |r.value.nextTokens|
      ensures r.Success? ==> newToken == old(newToken) + acceptLength + (if useBaseLogits then 2 else 1)
      ensures r.Success? ==>
                r.value.selectIndices == SelectIndices(retrieveIndices, best, acceptLength, |old(inputIds)|)
      ensures r.Success? ==> r.value.logits == logits[best][acceptLength]
    {
      var prevInputLen := |inputIds|;
      var selectIndices := SelectIndices(retrieveIndices, best, acceptLength, prevInputLen);
      var nextTokens := candidates[best][..acceptLength + 1];
      if useBaseLogits {
        nextTokens := nextTokens + [bonusToken];
      }
      if eosTokenId.Some? {
        if padTokenId.None? {
          return Failure("If `eos_token_id` is defined, make sure that `pad_token_id` is defined.");
        }
        nextTokens := PadFinished(nextTokens, unfinished, padTokenId.value);
      }
      inputIds := inputIds + nextTokens;
      var nextLogits := logits[best][acceptLength];
      if useBaseLogits {
        newToken := newToken + acceptLength + 2;
      } else {
        newToken := newToken + acceptLength + 1;
      }
      r := Success(StepOutput(nextLogits, nextTokens, selectIndices));
    }
  }

  /** One layer's key or value cache: its storage and how much of it is in use. */
  class KVCache {
    var data: seq<int>
    var currentLength: int

    constructor (data: seq<int>, currentLength: int)
      ensures this.data == data && this.currentLength == currentLength
    {
      this.data := data;
      this.currentLength := currentLength;
    }
  }

  /** `reset_past_key_values`: both caches (key and value) of every layer get
      length zero; their storage and the list itself stay as they are. */
  method ResetPastKeyValues(passedKeyValues: seq<seq<KVCache>>) returns (result: seq<seq<KVCache>>)
    requires forall i :: 0 <= i < |passedKeyValues| ==> |passedKeyValues[i]| >= 2
    modifies set i, j | 0 <= i < |passedKeyValues| && 0 <= j < 2 :: passedKeyValues[i][j]
    ensures result == passedKeyValues
    ensures forall i, j :: 0 <= i < |result| && 0 <= j < 2 ==> result[i][j].currentLength == 0
    ensures forall i, j :: 0 <= i < |result| && 0 <= j < 2 ==>
              result[i][j].data == old(result[i][j].data)
  {
    for i := 0 to |passedKeyValues|
      invariant forall i', j :: 0 <= i' < i && 0 <= j < 2 ==> passedKeyValues[i'][j].currentLength == 0
      invariant forall i', j :: 0 <= i' < |passedKeyValues| && 0 <= j < 2 ==>
                  passedKeyValues[i'][j].data == old(passedKeyValues[i'][j].data)
    {
      for j := 0 to 2
        invariant forall i', j' :: 0 <= i' < i && 0 <= j' < 2 ==> passedKeyValues[i'][j'].currentLength == 0
        invariant forall j' :: 0 <= j' < j ==> passedKeyValues[i][j'].currentLength == 0
        invariant forall i', j' :: 0 <= i' < |passedKeyValues| && 0 <= j' < 2 ==>
                    passedKeyValues[i'][j'].data == old(passedKeyValues[i'][j'].data)
      {
        passedKeyValues[i][j].currentLength := 0;
      }
    }
    result := passedKeyValues;
  }
}
