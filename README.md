# Medusa tree decoding bookkeeping, in Dafny

This project models the bookkeeping core of Medusa speculative decoding for
Whisper (`whisper_medusa/models/medusa_utils.py`). Medusa adds extra heads to
the decoder. Each head proposes the top-k tokens for one position further
ahead. With branch factors `medusa_choices = b`, the proposals form a tree:
- depth `d` has `b[0] * ... * b[d]` nodes;
- every node at depth `d` has `b[d + 1]` children;
- each root-to-leaf path is one candidate continuation.

The base model scores all tree nodes in one forward pass. It uses an
attention mask so that each node sees only its ancestors. The longest prefix
of a path that agrees with greedy decoding is accepted.

The model covers four parts of the source:

- **`generate_medusa_buffers`** (module `MedusaBuffers`, closed forms in
  `TreeTopology`). The four loops are modelled as imperative methods. The mask
  and `retrieve_indices` are `array2<int>`, and the mask's `+=` over a block of
  rows is a simultaneous `forall` update. Each loop is proved against closed
  forms over the tree:
  - `tree_indices[n]` is the candidate-pool slot of node `n`: its head's base
    slot plus its last mixed-radix digit.
  - Mask row `n` has a one exactly at `n` and its ancestors.
  - `medusa_position_ids[n]` is the depth of `n`.
  - Row `r` of `retrieve_indices` is the ancestor chain of leaf `r`.
  - The rows enumerate the leaves one to one.
- **`generate_candidates`** (module `Candidates`).
  - `torch.cartesian_prod` is modelled with its last list varying fastest. Its
    entries are proved to be the mixed-radix digits of the row number.
  - Central theorem: read along row `r` of `retrieve_indices`,
    `tree_candidates` gives exactly row `r` of `candidates`.
- **`evaluate_posterior`, greedy branch** (module `Posterior`).
  - `cumprod(mask).sum()` equals the number of leading ones.
  - The accept length is the longest agreeing prefix, maximal over all paths.
  - The chosen path is the first path that reaches it, and path 0 when
    nothing is accepted.
- **`update_inference_inputs` and `reset_past_key_values`** (module
  `InferenceUpdate`).
  - The decoding state (`input_ids`, `new_token`) is a class updated in place.
  - The method states the appended tokens, the padding of finished sequences,
    the error when `eos_token_id` is set without `pad_token_id`, the counter
    update, and the indices handed to the cache update.
  - Resetting the key/value caches zeroes every layer's two length counters in
    place.

Supporting modules:
- `TensorOps`: the torch operations used above: `arange`,
  `repeat(...).flatten()`, `repeat(...).transpose(0, 1).flatten()`, `cat`,
  `cumprod`, `cumsum`, `argmax` (first maximum) and `max`.
- `Arith`: sums, products and division lemmas.

All inputs are assumed well formed: branch factors non-empty and positive,
batch size 1. The source does not check these.

`tree_indices` slices the candidate pool by the cumulative sum of the branch
factors themselves (`whisper_medusa/models/medusa_utils.py:327` and
`:337-339`). Head `d` therefore gets exactly `b[d]` pool slots, starting at
`TreeTopology.PoolBase(b, d)`.

## Model

| member | source | states |
|---|---|---|
| TensorOps.Tile | whisper_medusa/models/medusa_utils.py:339 | `repeat(k, 1).flatten()` is `k` back-to-back copies: length `len(s) * k`, entry `t` is `s[t mod len(s)]` |
| TensorOps.RepeatInterleave | whisper_medusa/models/medusa_utils.py:349-354 | `repeat(k, 1).transpose(0, 1).flatten()` repeats each element `k` times in place: entry `t` is `s[t div k]` |
| TensorOps.InterleaveStep | whisper_medusa/models/medusa_utils.py:373-378 | prepending `k` copies of the head to the interleaving of the tail gives the interleaving of the whole sequence |
| TensorOps.CatAt | whisper_medusa/models/medusa_utils.py:475 | element `y` of part `i` sits at offset (sum of the earlier parts' sizes) + `y` of `torch.cat(parts)` |
| TensorOps.CatLength | whisper_medusa/models/medusa_utils.py:475 | `torch.cat(parts)` is as long as the parts together |
| TensorOps.Argmax | whisper_medusa/models/medusa_utils.py:466 | `torch.argmax` returns an index of a maximum, and no earlier index holds that maximum |
| TensorOps.Max | whisper_medusa/models/medusa_utils.py:573 | `.max()` is an element that is at least every element |
| TreeTopology.Depth | whisper_medusa/models/medusa_utils.py:360-363 | every node id lies in the id range of a level, its depth (uniqueness: `DepthUnique`) |
| TreeTopology.DepthUnique | whisper_medusa/models/medusa_utils.py:360-363 | a node in the id range of level `d` has depth `d` |
| TreeTopology.StartMono | whisper_medusa/models/medusa_utils.py:347 | level start ids (`cumulative_product[:d].sum()`) are non-negative and increase with depth |
| TreeTopology.LevelSizeFrom | whisper_medusa/models/medusa_utils.py:326 | level 0 has `b[0]` nodes, and each further level has its parent level's count times its branch factor |
| TreeTopology.SpanFacts | whisper_medusa/models/medusa_utils.py:375 | paths per depth-`d` node are positive; level size times that equals `prod(b)` (the divisor at line 375 is exact); each level multiplies by the next branch factor |
| TreeTopology.NodeCountFacts | whisper_medusa/models/medusa_utils.py:328 | `medusa_len` is the last level's start plus `prod(b)`, and at least `len(b)` |
| TreeTopology.PoolSlotInRange | whisper_medusa/models/medusa_utils.py:332-340 | each node's pool slot is among its own head's slots, so below `cumulative_sum[-1]` |
| TreeTopology.Offset | whisper_medusa/models/medusa_utils.py:339 | a node's offset within its level is non-negative and below the level's size |
| TreeTopology.Parent | whisper_medusa/models/medusa_utils.py:349-357 | the parent of a node below the first level is a smaller id one level up, at offset `offset div b[d]` |
| TreeTopology.AttendsBelow | whisper_medusa/models/medusa_utils.py:355-357 | a node attends only to itself and to smaller ids (the mask is lower triangular) |
| TreeTopology.AncestorsFacts | whisper_medusa/models/medusa_utils.py:355-357 | the ancestor chain has one node per depth `0..Depth(n)` and ends in `n` |
| TreeTopology.AttendsIffAncestor | whisper_medusa/models/medusa_utils.py:355-357 | node `n` attends to `m` if and only if `m` is on `n`'s ancestor chain |
| TreeTopology.MaskRowCount | whisper_medusa/models/medusa_utils.py:355-357 | row `n` of the mask has exactly `Depth(n) + 1` ones |
| TreeTopology.RetrieveAtDepth | whisper_medusa/models/medusa_utils.py:371-378 | column `k` of every path is a node of depth `k`, at offset `r div (paths per depth-k node)` |
| TreeTopology.RetrieveParent | whisper_medusa/models/medusa_utils.py:371-378 | along a row of `retrieve_indices`, each entry is the parent of the next |
| TreeTopology.SameOffset | whisper_medusa/models/medusa_utils.py:371-378 | two nodes of the same depth and offset are the same node |
| TreeTopology.RetrieveRowIsChain | whisper_medusa/models/medusa_utils.py:365-378 | row `r` of `retrieve_indices` is exactly the ancestor chain of its leaf |
| TreeTopology.RetrieveChainPrefix | whisper_medusa/models/medusa_utils.py:371-378 | the first `d + 1` entries of a row are the ancestor chain of its depth-`d` entry |
| TreeTopology.RetrieveLastColumn | whisper_medusa/models/medusa_utils.py:366-378 | the last column of row `r` is the `r`-th deepest node, and the deepest level has `prod(b)` nodes |
| TreeTopology.RetrieveRowsDistinct | whisper_medusa/models/medusa_utils.py:366-378 | different rows end in different leaves |
| TreeTopology.LeafHasPath | whisper_medusa/models/medusa_utils.py:366-378 | every deepest-level node is the leaf of a row, the row numbered by its offset |
| MedusaBuffers.CumulativeFacts | whisper_medusa/models/medusa_utils.py:326-328 | `cumulative_product[i]` is the size of level `i`, `cumulative_sum[i]` is head `i + 1`'s first pool slot, `cumulative_product[:i].sum()` is level `i`'s first id |
| MedusaBuffers.LevelFacts | whisper_medusa/models/medusa_utils.py:336-342 | the loop's `cumsum`/`cumprod` at step `i` are the next pool base and the level size, and level `i` ends where level `i + 1` starts |
| MedusaBuffers.TreeIndicesLevel | whisper_medusa/models/medusa_utils.py:339-340 | the slice appended at depth `i` has one entry per depth-`i` node, and that entry is the node's pool slot |
| MedusaBuffers.BuildTreeIndices | whisper_medusa/models/medusa_utils.py:331-342 | `tree_indices` has `medusa_len` entries, and entry `n` is node `n`'s pool slot |
| MedusaBuffers.ParentIndexLevel | whisper_medusa/models/medusa_utils.py:349-354 | `parent_idx` has one entry per depth-`i` node, below that level's first id, and the entry is the node's parent |
| MedusaBuffers.MaskStageStep | whisper_medusa/models/medusa_utils.py:355-357 | adding the parent's finished row to a level-`i` row gives exactly the row of self plus ancestors; other rows are unchanged |
| MedusaBuffers.MaskStageFirst | whisper_medusa/models/medusa_utils.py:345-348 | the first iteration leaves the identity, which is already final for the depth-0 rows |
| MedusaBuffers.AddParentRows | whisper_medusa/models/medusa_utils.py:355-357 | the block `+=` turns the mask after `i` levels into the mask after `i + 1` levels |
| MedusaBuffers.BuildAttnMask | whisper_medusa/models/medusa_utils.py:344-358 | `medusa_attn_mask` is `medusa_len` square, and entry `(n, m)` is 1 if `m` is `n` or an ancestor of `n`, else 0 |
| MedusaBuffers.LevelDepths | whisper_medusa/models/medusa_utils.py:362-363 | every node appended at step `i` has depth `i` |
| MedusaBuffers.BuildPositionIds | whisper_medusa/models/medusa_utils.py:360-363 | `medusa_position_ids` has `medusa_len` entries, and entry `n` is the depth of node `n` |
| MedusaBuffers.RetrieveColumn | whisper_medusa/models/medusa_utils.py:372-378 | column `i` has `prod(b)` entries, the repeat count divides exactly, and row `r`'s entry is the depth-`i` node on path `r` |
| MedusaBuffers.WriteColumn | whisper_medusa/models/medusa_utils.py:373 | `a[:, k] = column` changes column `k` only |
| MedusaBuffers.BuildRetrieveIndices | whisper_medusa/models/medusa_utils.py:365-379 | `retrieve_indices` is `prod(b)` by `len(b)`, and entry `(r, k)` is the depth-`k` node on path `r` |
| MedusaBuffers.GenerateMedusaBuffers | whisper_medusa/models/medusa_utils.py:325-379 | all four buffers together, as above, plus every tree index is a valid pool slot and the mask diagonal is 1 |
| Candidates.CartesianProduct | whisper_medusa/models/medusa_utils.py:476 | `torch.cartesian_prod` has the product of the list sizes as its row count, every row has one entry per list, and entry `i` of every row is an element of list `i` (which element: `CartesianAt`) |
| Candidates.PickRow | whisper_medusa/models/medusa_utils.py:476 | row `r` of head times tail is element `r div len(tail)` of the head, followed by row `r mod len(tail)` of the tail |
| Candidates.CartesianRow | whisper_medusa/models/medusa_utils.py:476 | product row `r` splits into an element of the first list and a row of the product of the rest |
| Candidates.CartesianAt | whisper_medusa/models/medusa_utils.py:476 | entry `(r, i)` is the element of list `i` given by digit `i` of `r` in the mixed radix of the list sizes, with the last list varying fastest |
| Candidates.CartesianRoot | whisper_medusa/models/medusa_utils.py:466-476 | with a one-element first list, column 0 of every row is that element |
| Candidates.GenerateCandidates | whisper_medusa/models/medusa_utils.py:464-478 | there are (product of top-k sizes) candidates, each with one token per head after the greedy root, and tree slots indexing pool slot 0 hold the root |
| Candidates.TreeMatchesCartesian | whisper_medusa/models/medusa_utils.py:475-477 | with `tree_indices` built for `[1] + topk sizes`, the tree candidate at `retrieve_indices[r, i]` is `candidates[r, i]` |
| Posterior.LeadingOnes | whisper_medusa/models/medusa_utils.py:572 | the count of leading ones: every entry before it is 1, and the entry at it, if any, is not |
| Posterior.CumProdSumIsLeadingOnes | whisper_medusa/models/medusa_utils.py:572 | on a 0/1 row, `cumprod(row).sum()` is its number of leading ones |
| Posterior.PosteriorMask | whisper_medusa/models/medusa_utils.py:569-571 | the posterior mask of a path is a 0/1 row one shorter than the path |
| Posterior.MatchLength | whisper_medusa/models/medusa_utils.py:572 | a path's accept length is at most the number of proposed tokens |
| Posterior.MatchLengthIsLongestPrefix | whisper_medusa/models/medusa_utils.py:569-572 | a path's accept length is its longest prefix that agrees with greedy decoding: every earlier proposal equals the argmax, and the next one does not |
| Posterior.AcceptLengths | whisper_medusa/models/medusa_utils.py:572 | `candidates_accept_length[p]` is path `p`'s longest agreeing prefix |
| Posterior.EvaluatePosteriorGreedy | whisper_medusa/models/medusa_utils.py:567-580 | the accept length is the maximum over all paths and is reached by the chosen path; the chosen path is the first to reach it, or path 0 when it is 0 |
| InferenceUpdate.NextTokens | whisper_medusa/models/medusa_utils.py:656-661 | the appended tokens are the chosen path's first `accept_length + 1` tokens, then the extra base-model token when `use_base_logits` is set |
| InferenceUpdate.AcceptedTokensAreGreedy | whisper_medusa/models/medusa_utils.py:656 | every accepted token after the first is the argmax of the base model's scores at the position before it |
| InferenceUpdate.PadFinished | whisper_medusa/models/medusa_utils.py:668-670 | padding by `unfinished_sequences` keeps the token count |
| InferenceUpdate.PadFinishedCases | whisper_medusa/models/medusa_utils.py:668-670 | an unfinished sequence (1) keeps its tokens, and a finished one (0) gets only pad tokens |
| InferenceUpdate.SelectIndices | whisper_medusa/models/medusa_utils.py:653-654 | `select_indices` has `accept_length + 1` entries, each the chosen path's tree node shifted by the old input length |
| InferenceUpdate.SelectIndicesFollowPath | whisper_medusa/models/medusa_utils.py:653-654 | with the `retrieve_indices` of `generate_medusa_buffers`, the `accept_length + 1` select indices minus the old input length are the accepted node's ancestor chain, in depth order |
| InferenceUpdate.DecodeState.UpdateInferenceInputs | whisper_medusa/models/medusa_utils.py:650-689 | fails (state unchanged) iff `eos_token_id` is set and `pad_token_id` is not; otherwise it appends the (padded) tokens to `input_ids`, increases `new_token` by their number, returns the chosen path's scores at `accept_length`, and returns the cache-update indices |
| InferenceUpdate.ResetPastKeyValues | whisper_medusa/models/medusa_utils.py:438-441 | every layer's key and value length counters become 0; their storage and the returned list are unchanged |

## Left out

- `tree_decoding` (`medusa_utils.py:481-543`): it runs the decoder model on the tree. Its result enters as the `logits` inputs.
- The sampling branch of `evaluate_posterior` (`temperature > 0`, `medusa_utils.py:582-607`): it relies on floating-point softmax and thresholds.
- `list_indices` (`medusa_utils.py:381-403`) and the tensor/device assembly of the buffer dictionary (`medusa_utils.py:405-421`), including the mask's `unsqueeze(0).unsqueeze(0)`: these only move data or change its shape.
- The logits processors and the generation config (`medusa_utils.py:14-302`): they are not part of the tree bookkeeping.
- `model._update_medusa_outputs` (`medusa_utils.py:673-681`): it is a call into the model's cache. Only the indices handed to it are modelled (`SelectIndices`). `prev_indices` (`:651`) is not modelled.
- `torch.topk` (`medusa_utils.py:469`, `:473`): the top-k token lists are inputs, because the tie order among equal scores is not visible. As a result, the single-`k` branch (`:467-470`) and the per-head branch (`:471-474`) give the same lists. The model does not capture a `medusa_topk` whose length differs from the number of heads.
- InferenceUpdate.DecodeState.UpdateInferenceInputs: the extra token of `use_base_logits` (`medusa_utils.py:658`) is taken as an input (`bonusToken`). It is not computed from `logits[:, 0]`, and the shape of that argmax over several paths is not modelled.
- Scores are integers, not floats. Only their order matters to `argmax` and `max`. NaN is not modelled.
- Batch size is 1: `input_ids` is one sequence, `unfinished_sequences` one integer, and `logits[:, -1]` one score row.
- Candidates.CartesianProduct: with no heads at all, `torch.cartesian_prod` of one tensor returns a 1-D tensor. The model returns one-element rows instead.
- Branch factors that are empty, zero or negative are excluded by `ValidChoices`. The source does not check for them.
- The `-1` sentinel of `prev_cumprod_sum` (`medusa_utils.py:345`) is kept. The model does not capture that `medusa_attn_mask` is a float tensor.
- KV-cache storage is a sequence of integers standing for the tensors. Only the length counter that `reset_past_key_values` writes is modelled.
