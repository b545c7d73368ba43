# Verified kernels of wav2letter++

A Dafny model of the algorithmic core of wav2letter++, and proofs about it: the
CPU sequence criteria (CTC, and the force-alignment, full-connection and Viterbi
programs of ASG), the two frame-synchronous beam-search decoders with online
pruning, the beam search of the sequence-to-sequence criterion, the score cache of
the convolutional language model, the lexicon trie, and the data kernels around
them (batch packing, prefetching, replabels, linear targets, workspace layout).

`dafny verify dfyconfig.toml` checks the whole project.

## How the model is set up

* Scores of the criteria and of the trie are in the exponentiated domain: a
  log-probability is a real weight, minus infinity is 0, log-sum-exp is `+` and
  adding logs is `*`. Statements are then exact. The decoders, Viterbi and the
  sequence-to-sequence search work on plain real scores.
* `Trellis.dfy` holds the theory all three criteria share: prefix and suffix sums
  over a layered graph, and that every frame carries the whole total;
  `Posteriors.dfy` identifies node and edge masses with sums over whole paths.
  Each criterion is tied on one side to a brute-force sum over all label
  sequences (`Sums.SumSequences`), on the other to the banded, buffer-reusing code.
* The decoders are one class; they differ in what they propose. A parent pointer is
  a position in the beam of the frame before. A language model is a deterministic
  automaton. Sorting is used through its contract, ties falling any way, so beams
  follow each other by a relation (`Decoder.FrameStep`), and the online/offline
  theorem is a simulation in both directions. Log-add is any operation that
  commutes with a common offset (`BeamStore.Uniform`, which keeping the larger score
  meets); its mass is any function that it adds up, exponential where scores are summed
  over frames.
* The network behind the language-model cache scores a history and does not look at
  padding or at other rows of its batch. A state is an address with the history
  stored there, and the cache is keyed by the address alone.
* Worker threads of the prefetch cache act in whole steps between the dataset's own.
* Random shuffles are parameters: any permutation of the global batches.

## Where the code departs from what it documents or suggests

* CTC shortens a target that does not fit so as to get a finite loss, but the number
  of states was fixed before, so the total read at the end is 0 and the
  loss is infinite. `CtcForward.Forward` states that: the total is the sum over the
  labelings of the full target, for targets of any length. `CtcBackward.FitsExactly`
  says for which targets it is not 0.
* The ASG loss is not always non-negative. `AsgLoss.LossNonneg` gives the exact
  condition and `AsgLoss.AlignmentsAbove` the weights that break it otherwise.
* Max smearing is documented as the maximum over the words below a node. The words
  that share one spelling are log-added first in either mode, so the score can exceed
  every single word's. `Tries.MaxIsBestWord` gives the exact condition.
* The lexicon decoder adds the silence score to a CTC blank never, the lexicon-free
  one whenever silence and blank are the same index. The model follows both.
* With CTC, a token repeated without a blank is the same token. The lexicon decoder
  checks that before it moves to a child, but not before it ends a word, so the frames
  of a hypothesis need not spell its words. `LexiconDoubles.LexiconDecides` gives the
  lexicons for which they always do, `LexiconDoubles.Counterexample` a decoding for any
  other, and `LexiconSpelling.FramesSpellWords` what holds of one hypothesis.
* The language-model cache is keyed by the address of a state and answers for the
  history cached there, which another state may have left (`ConvLms.StaleAnswer`).
  `ConvLms.RunExactly` gives the runs that are answered right whatever the network,
  `ConvLms.ReuseDecides` the pools of states for which all runs are.

## Model

| member | source | states |
|---|---|---|
| `Ctc.TrellisIsLabelingSum` | src/criterion/backend/cpu/ConnectionistTemporalClassificationCriterion.cpp:98-116 | the blank-interleaved state graph with its step-0/1/2 moves has as total the brute-force sum, over all N^T frame labelings whose collapse is the target, of the product of frame weights |
| `CtcWindow.WindowExact` | src/criterion/backend/cpu/ConnectionistTemporalClassificationCriterion.cpp:82-96 | a state is in the window of frame t exactly when it is both reachable from the start and able to reach the end, that is, when its forward-backward mass is positive |
| `CtcForward.StartMoves` | src/criterion/backend/cpu/ConnectionistTemporalClassificationCriterion.cpp:84-89 | the forward update of `start` (one step, or two over an unrepeated label) moves it to the first state that can still finish, and never reads past the target |
| `CtcForward.EndMoves` | src/criterion/backend/cpu/ConnectionistTemporalClassificationCriterion.cpp:90-96 | the forward update of `end` moves it to one past the last reachable state |
| `CtcForward.CountRepeats` | src/criterion/CriterionUtils.cpp:18-26 | counts the adjacent equal pairs among the first len labels |
| `CtcForward.Forward` | src/criterion/backend/cpu/ConnectionistTemporalClassificationCriterion.cpp:62-117 | banded forward pass: the total equals the brute-force labeling sum for every number of frames and every target, also targets too long to fit (total 0); each row holds the exact prefix sums inside the window |
| `CtcBackward.StartBack` | src/criterion/backend/cpu/ConnectionistTemporalClassificationCriterion.cpp:172-178 | the backward update of `start` lands on the forward window of the frame before |
| `CtcBackward.EndBack` | src/criterion/backend/cpu/ConnectionistTemporalClassificationCriterion.cpp:179-185 | the backward update of `end` lands on the forward window of the frame before, reading only existing labels |
| `CtcBackward.WindowOpen` | src/criterion/backend/cpu/ConnectionistTemporalClassificationCriterion.cpp:187-187 | the window is never empty when L + R <= T |
| `CtcBackward.DLogSumExp` | src/criterion/CriterionUtils.h:65-79 | the max-normalised three-way derivative hands out exactly the shares in_i / (in1+in2+in3) of scale; with a zero third input it is the two-way form |
| `CtcBackward.LabelMassTotal` | src/criterion/backend/cpu/ConnectionistTemporalClassificationCriterion.cpp:190-190 | over all labels, the masses a frame hands to the gradient sum to the whole total |
| `CtcBackward.FitsExactly` | src/criterion/backend/cpu/ConnectionistTemporalClassificationCriterion.cpp:61-67 | for positive weights some labeling spells the target if and only if its length plus its repeats is at most the number of frames |
| `CtcBackward.Backward` | src/criterion/backend/cpu/ConnectionistTemporalClassificationCriterion.cpp:143-216 | grad[t][c] is -gradScale times the posterior of label c at frame t (the share of labelings, among those spelling the target, with c at t), and every frame's gradients sum to -gradScale |
| `Asg.FacIsAlignmentSum` | src/libraries/criterion/cpu/ForceAlignmentCriterion.cpp:83-117 | the alignment graph's total is the brute-force sum over all step-0/1 walks from the first to the last target position |
| `Asg.FccIsFullSum` | src/libraries/criterion/cpu/FullConnectionCriterion.cpp:64-97 | the full graph's total is the brute-force sum over all N^T label sequences of emissions and transitions |
| `ForceAlignment.LogSumExp` | src/libraries/criterion/cpu/ForceAlignmentCriterion.cpp:108-112 | the branch-normalised two-way form is the sum |
| `ForceAlignment.Forward` | src/libraries/criterion/cpu/ForceAlignmentCriterion.cpp:83-117 | on an uninitialised workspace, writing only the low/high band, the result is the alignment sum; inside the band every row holds the exact prefix sums, and both transition buffers are left ready for the backward pass |
| `ForceAlignmentGrad.BackwardRow` | src/libraries/criterion/cpu/ForceAlignmentCriterion.cpp:156-199 | one frame back: alphaGrad * Z stays prefix * suffix mass, and the transition buffers collect exactly the stay and move masses |
| `FacMeaning.LabelMassMeaning` | src/libraries/criterion/cpu/ForceAlignmentCriterion.cpp:168-170 | the masses of the band positions carrying label c add up to the alignments with c at frame t |
| `FacMeaning.BufferMovesMeaning` | src/libraries/criterion/cpu/ForceAlignmentCriterion.cpp:207-212 | scattering the two buffers by target labels gives, per label pair, the alignments making that move, over all frames |
| `FacBackward.Backward` | src/libraries/criterion/cpu/ForceAlignmentCriterion.cpp:152-221 | input gradients are gradScale times label posteriors, transition gradients gradScale times expected move counts; each frame's inputs sum to gradScale, all transitions to (T-1)*gradScale |
| `FullConnection.Forward` | src/libraries/criterion/cpu/FullConnectionCriterion.cpp:64-97 | the max-normalised row sums give the sum over all N^T sequences, with the extra closing step at t = T |
| `FccBackward.Backward` | src/libraries/criterion/cpu/FullConnectionCriterion.cpp:117-179 | input gradients are gradScale times label posteriors over all sequences, transition gradients gradScale times expected move counts, with the same frame and transition totals |
| `Viterbi.Compute` | src/libraries/criterion/cpu/ViterbiPath.cpp:53-88 | the path reconstructed through the back-pointers, with only two alpha rows kept, scores at least as much as every one of the N^T label sequences |
| `AsgLoss.AlignmentsBelow` | src/criterion/AutoSegmentationCriterion.h:42-43 | the alignment total never exceeds the full total when the target has no equal neighbours or fills all frames |
| `AsgLoss.AlignmentsAbove` | src/criterion/AutoSegmentationCriterion.h:42-43 | for any target with equal neighbours that is shorter than T there are positive weights that make the loss negative |
| `AsgLoss.LossNonneg` | src/criterion/AutoSegmentationCriterion.h:42-43 | for given target and T, the loss is non-negative for all weights if and only if the target has no equal neighbours or is at least T long |
| `LinearTarget.GetTargetSize` | src/criterion/CriterionUtils.cpp:28-33 | strips exactly the negative labels at the end |
| `LinearTarget.GetLinearTarget` | src/criterion/CriterionUtils.cpp:62-71 | the result is the target without its padding (cut to T) spread along the positions t*size/T, or all padding for an empty target; no index leaves the target |
| `LinearTarget.LinearIsAlignment` | src/criterion/CriterionUtils.cpp:68-70 | the positions t*size/T start at 0, end at size-1 and move by 0 or 1: every label is visited in order |
| `LinearTarget.PositionsEven` | src/criterion/CriterionUtils.cpp:69-69 | frame t gets position p exactly when p*T <= t*size < (p+1)*T: the target is spread evenly |
| `LinearTarget.PositionsHeld` | src/criterion/CriterionUtils.cpp:68-70 | so each position is held by one stretch of T/size or T/size + 1 frames |
| `LinearTarget.LinearSpells` | src/criterion/CriterionUtils.cpp:68-70 | deduplicating a linear target gives the deduplicated original |
| `LinearTarget.LinearTotal` | src/criterion/LinearSegmentationCriterion.h:28-31 | a target of length T has one alignment, so its alignment total is the weight of that one label sequence |
| `LinearTarget.LinearLossNonneg` | src/criterion/LinearSegmentationCriterion.h:23-32 | the linear-segmentation loss is never negative, with repeated labels too |
| `StoreMethods.IsValidCandidate` | src/libraries/decoder/Utils.cpp:13-22 | raises the best score to the maximum so far and answers whether the score is within the threshold of it |
| `Candidates.AddAllExact` | src/libraries/decoder/LexiconDecoder.cpp:67-79 | whatever the running filter drops would also be dropped by any cut at least as high as the final one |
| `Candidates.SurvivorsExact` | src/libraries/decoder/LexiconDecoder.cpp:67-91 | after the running and the final filter, exactly the proposals within the threshold of the frame's best remain, in order |
| `Candidates.SurvivorsOrder` | src/libraries/decoder/LexiconDecoder.cpp:67-91 | which candidates survive does not depend on the order in which they are proposed |
| `StoreMethods.PruneCandidates` | src/libraries/decoder/Utils.h:90-100 | keeps, in order, the candidates that score at least the cut |
| `StoreMethods.MergeCandidates` | src/libraries/decoder/LexiconDecoder.cpp:47-64 | in-place merging of neighbours in the pointer array equals the fold that merges each candidate into the last one kept when their keys agree |
| `Candidates.MergeMeaning` | src/libraries/decoder/LexiconDecoder.cpp:26-65 | on sorted candidates: one per (language-model state, trie node, token, blank) key and no key lost; without log-add each is the best of its key, unchanged |
| `BeamStore.MergeKeyMass` | src/libraries/decoder/LexiconDecoder.cpp:26-65 | with log-add, each merged candidate carries exactly the mass of all candidates of its key |
| `BeamStore.MergeKeepsBest` | src/libraries/decoder/LexiconDecoder.cpp:26-65 | with log-add or without, a merged candidate has the parent and the word of the best candidate of its key |
| `BeamStore.StoredKeyMass` | src/libraries/decoder/LexiconDecoder.cpp:81-98 | so does each stored hypothesis, for the candidates that survived the filters |
| `BeamStore.MergeMass` | src/libraries/decoder/Utils.h:71-83 | hence merging conserves the total probability mass |
| `BeamStore.MassOfMultiset` | src/libraries/decoder/LexiconDecoder.cpp:44-45 | total and per-key mass do not depend on how sorting arranged the candidates |
| `StoreMethods.StoreTopCandidates` | src/libraries/decoder/Utils.h:103-132 | the result is a best K of the merged candidates: ties any way, sorted on demand, untouched when all fit |
| `StoreMethods.CandidatesStore` | src/libraries/decoder/LexiconDecoder.cpp:81-98 | filter, sort, merge, keep the best K: the new beam is one that storing these proposals allows, including the empty case |
| `BeamStore.StoredFrom` | src/libraries/decoder/LexiconDecoder.cpp:81-98 | every stored hypothesis is one of the proposals up to its score, so its parent and token are that proposal's |
| `BeamStore.StoredCovers` | src/libraries/decoder/LexiconDecoder.cpp:81-98 | when nothing exceeds beam or threshold, every proposal is represented by a stored one with its key and at least its score |
| `BeamStore.ShiftStored` | src/libraries/decoder/LexiconDecoder.cpp:81-98 | adding one offset to all proposals adds it to what may be stored and changes nothing else |
| `BeamStore.TakeMaxUniform` | src/libraries/decoder/Utils.h:71-83 | keeping the larger score commutes with an offset, so the offset results apply to it |
| `TokenOrder.ChooseTokens` | src/libraries/decoder/LexiconDecoder.cpp:122-131 | all tokens in order when they fit, otherwise a best beamSizeToken of them, best first |
| `BeamDecoders.BeamDecoder.DecodeBegin` | src/libraries/decoder/LexiconDecoder.cpp:100-109 | one root hypothesis on silence with score 0 and no parent, counters zero |
| `BeamDecoders.BeamDecoder.ExtendFree` | src/libraries/decoder/LexiconFreeDecoder.cpp:129-170 | adds exactly the lexicon-free proposal for a token, in its three branches |
| `BeamDecoders.BeamDecoder.ExtendLex` | src/libraries/decoder/LexiconDecoder.cpp:141-221 | adds exactly the child, the word and the unknown-word proposals for a token, in order |
| `BeamDecoders.BeamDecoder.ExtendStay` | src/libraries/decoder/LexiconDecoder.cpp:223-259 | adds the same-node proposal unless CTC follows a blank, and the CTC blank proposal |
| `BeamDecoders.BeamDecoder.DecodeFrame` | src/libraries/decoder/LexiconDecoder.cpp:133-263 | the new beam is one that storing all proposals of the beam before allows |
| `BeamDecoders.BeamDecoder.DecodeStep` | src/libraries/decoder/LexiconDecoder.cpp:111-268 | a chunk appends one beam per frame, each following the one before; stale frames in the buffer do not matter; only the very first frame of the utterance has no transition |
| `BeamDecoders.BeamDecoder.DecodeEnd` | src/libraries/decoder/LexiconDecoder.cpp:270-301 | appends the sorted final beam; with a lexicon only hypotheses at the root are kept if there is one |
| `BeamDecoders.BeamDecoder.GetBestHypothesis` | src/libraries/decoder/LexiconDecoder.cpp:312-320 | reads back the ancestor chain of the best hypothesis from its first complete ancestor lookBack frames back, or the empty result |
| `BeamDecoders.BeamDecoder.MoveToFront` | src/libraries/decoder/Utils.h:220-223 | the overlapping swap loop puts frame i+startFrame at i |
| `BeamDecoders.BeamDecoder.PruneAndNormalize` | src/libraries/decoder/Utils.h:215-242 | frames startFrame.. move to the front, the first loses its parents, the last has its largest score subtracted |
| `BeamDecoders.BeamDecoder.Prune` | src/libraries/decoder/LexiconDecoder.cpp:331-352 | either nothing changes, or exactly the frames before the ancestor found are dropped and counted; the invariant is kept |
| `Online.StepsSound` | src/libraries/decoder/LexiconDecoder.cpp:111-268 | decoding keeps the parent-chain invariant and the frame counts |
| `Online.EndsSound` | src/libraries/decoder/LexiconDecoder.cpp:270-301 | ending keeps them |
| `Online.PrunesSound` | src/libraries/decoder/LexiconDecoder.cpp:331-352 | pruning keeps them |
| `Endings.PruneRescales` | src/libraries/decoder/Utils.h:215-242 | a prune that changes anything drops the oldest frames; the best score of the last beam becomes 0 by one offset, the other frames keep their scores, the first loses its parents |
| `Endings.NeverEmpty` | src/libraries/decoder/LexiconDecoder.cpp:111-267 | with beamSize >= 1 and threshold >= 0 no beam of any decoding is empty |
| `Endings.FinalsExactly` | src/libraries/decoder/LexiconDecoder.cpp:272-285 | exactly the hypotheses between words are finished, or all of them when none is between words or there is no lexicon |
| `Endings.FinalAlive` | src/libraries/decoder/LexiconDecoder.cpp:270-301 | so the final beam is not empty |
| `Endings.EndIsSilent` | src/libraries/decoder/LexiconDecoder.cpp:288-296 | the first and the last slot read back after the end hold silence and no word |
| `History.AncestorStep` | src/libraries/decoder/Utils.h:144-150 | following parent fields visits each earlier frame once |
| `History.GetHypothesis` | src/libraries/decoder/Utils.h:134-153 | slot j of the result holds the word and token of the ancestor at frame j, for every j up to the final frame, and nothing is written outside |
| `History.FindBestAncestor` | src/libraries/decoder/Utils.h:171-213 | the node returned is exactly lookBack (as updated) frames before the last one, on the chain of the first best hypothesis; null exactly when the chain is too short or the beam is empty |
| `History.ClimbMeaning` | src/libraries/decoder/Utils.h:196-209 | the updated lookBack is the nearest complete ancestor at or past the one asked for, and at most 100 frames more, where the search is cut |
| `WholeWords.CompleteExactly` | src/libraries/decoder/LexiconDecoder.h:59-61 | in any decoding with a lexicon, an ancestor counts as complete if and only if nothing comes before it or the chain before it has just ended a word |
| `WholeWords.LookBackIsWhole` | src/libraries/decoder/Utils.h:171-213 | so, off the limit, what is read back before the node returned consists of whole words of the lexicon, and going back less far would cut one |
| `OnlineOffline.StepsCompose` | src/libraries/decoder/Decoder.h:18-30 | two chunks in a row are one chunk |
| `OnlineOffline.StepsSplit` | src/libraries/decoder/Decoder.h:18-30 | a decoding of two chunks passes through a decoding of the first |
| `OnlineOffline.PruneMatches` | src/libraries/decoder/Decoder.h:27-29 | pruning leaves the held frames those of the offline decoding, up to offsets |
| `OnlineOffline.FeedForth` | src/libraries/decoder/Decoder.h:21-29 | frames fed online and offline keep the one offset of the last beam, so all frames since the last prune share it |
| `OnlineOffline.PruneShares` | src/libraries/decoder/Decoder.h:27-29 | a prune that changes anything drops frames and starts a new offset with the last one |
| `OnlineRuns.RunSound` | src/libraries/decoder/Decoder.h:21-26 | in every state of every online run the chains are sound and no frame is lost count of |
| `OnlineRuns.OnlineIsOffline` | src/libraries/decoder/Decoder.h:16-30 | whatever any run of chunks and prunes holds, decoding all frames at once may hold: same hypotheses, same parents, and one score offset for all frames fed since the last prune (0 when nothing was pruned) |
| `OnlineRuns.OfflineIsOnline` | src/libraries/decoder/Decoder.h:16-30 | and whatever decoding at once finds, the run of the same chunks and prunes may find, with the same single offset |
| `OnlineRuns.EndsForth` | src/libraries/decoder/LexiconDecoder.cpp:270-301 | the final beams correspond too, online to offline, with that offset |
| `OnlineRuns.EndsBack` | src/libraries/decoder/LexiconDecoder.cpp:270-301 | and offline to online |
| `OnlineRuns.SameHypothesis` | src/libraries/decoder/Decoder.h:61-66 | a hypothesis read back online is the tail of the one read back offline |
| `OnlineRuns.SameBest` | src/libraries/decoder/Decoder.h:61-66 | online and offline agree on which hypothesis of a held frame is best |
| `DecoderScore.AccountedNext` | src/libraries/decoder/LexiconDecoder.cpp:134-261 | one extension keeps the account: the look-ahead added for a child is taken back when a word ends |
| `DecoderScore.LexiconObjective` | src/libraries/decoder/LexiconDecoder.h:65-76 | in every frame of every decoding without log-add, a hypothesis scores acoustic + silScore*#silence + wordScore*#known + unkScore*#unknown + lmWeight*(language-model score of what the model read + look-ahead of its trie node), and its language-model state is that of what was read: the words, or with a token-level model the tokens eaten |
| `DecoderScore.TokenLevelObjective` | src/libraries/decoder/LexiconDecoder.cpp:160-182 | with a token-level model the state and score are those of the tokens eaten, one by one, and there is no look-ahead |
| `DecoderScore.FinalObjective` | src/libraries/decoder/LexiconDecoder.h:65-76 | at the end the score is the documented objective of the sentence including its end; no look-ahead is left when some hypothesis ended on a word |
| `DecoderScore.ChainIsHistory` | src/libraries/decoder/Utils.h:144-150 | the chain the objective speaks of is the one read back |
| `LexiconSpelling.HypothesesAreSpelled` | src/libraries/decoder/LexiconDecoder.cpp:140-259 | in every frame of every decoding, with log-add or without, each word of a hypothesis is in the lexicon under exactly the tokens eaten for it (or is the unknown word on a path that spells none), and the tokens eaten since lead to its trie node |
| `LexiconSpelling.EatenSplits` | src/libraries/decoder/LexiconDecoder.cpp:166-202 | the tokens eaten are the spellings of the words one after the other, then the word begun |
| `LexiconSpelling.FramesSpellWords` | src/libraries/decoder/LexiconDecoder.cpp:166-244 | with CTC, the frames of a hypothesis collapse to the spellings of its words and the word begun if and only if no word ended on a token repeated without a blank |
| `LexiconDoubles.NoDoubles` | src/libraries/decoder/LexiconDecoder.cpp:166-202 | over a lexicon without a word of one token or a word ending in the same token twice, no hypothesis of any CTC decoding has such a word end |
| `LexiconDoubles.Counterexample` | src/libraries/decoder/LexiconDecoder.cpp:186-220 | for any lexicon with such a word (any such path, when unknown words are allowed) there are a decoder, frames and a decoding whose stored hypothesis doubles it |
| `LexiconDoubles.LexiconDecides` | src/libraries/decoder/LexiconDecoder.cpp:166-244 | for a given lexicon, the frames of every hypothesis of every CTC decoding spell its words if and only if no word is one token or ends in the same token twice |
| `LexiconDoubles.OneTokenWord` | src/libraries/decoder/LexiconDecoder.cpp:186-202 | the smallest lexicon for which they do not: one word of one token |
| `LexExact.FollowsProposed` | src/libraries/decoder/LexiconDecoder.cpp:135-259 | every way on that the lexicon allows is proposed |
| `LexExact.HypothesisIsChain` | src/libraries/decoder/LexiconDecoder.cpp:135-259 | and every hypothesis of every decoding is a chain of such ways |
| `LexExact.AmpleIsLossless` | src/libraries/decoder/LexiconDecoder.cpp:111-267 | with room for all tokens and all chains, and a threshold no smaller than what chains of one length differ by, no frame of any decoding drops a candidate |
| `LexExact.AmpleExists` | src/libraries/decoder/LexiconDecoder.cpp:111-267 | for any decoder, lexicon and frames some such sizes exist |
| `LexExact.NiceAlways` | src/libraries/decoder/LexiconDecoder.cpp:270-301 | then some hypothesis ends between words, so only such ones are kept |
| `LexExact.LexDecodeIsExact` | src/libraries/decoder/LexiconDecoder.cpp:111-301 | with such sizes the first final hypothesis ends a chain that maximises the documented objective, end of the sentence included, over all chains through the lexicon that end between words |
| `LexiconSpelling.AsgFramesSpellWords` | src/libraries/decoder/LexiconDecoder.cpp:166-244 | with ASG, merging the runs of the frames merges the runs of the tokens eaten |
| `FreeScore.ProposeGains` | src/libraries/decoder/LexiconFreeDecoder.cpp:129-170 | the three branches ask the language model exactly when the token extends the collapsed transcription (runs merged; blanks erased for CTC): the proposal stands where the labels lead and adds what they add to the objective |
| `FreeExact.FreeMeaning` | src/libraries/decoder/LexiconFreeDecoder.h:53-63 | in every frame a hypothesis of the lexicon-free decoder scores acoustic + silScore*#silence + lmWeight*(language-model score of what its labels say) |
| `FreeExact.AmpleIsLossless` | src/libraries/decoder/LexiconFreeDecoder.cpp:102-177 | with room for all tokens and for N^t hypotheses, and a threshold no smaller than what label sequences of one length differ by, no frame of any decoding drops a candidate |
| `FreeExact.AmpleExists` | src/libraries/decoder/LexiconFreeDecoder.cpp:102-177 | for any decoder and any frames some such sizes exist |
| `FreeExact.FreeIsExact` | src/libraries/decoder/LexiconFreeDecoder.cpp:102-177 | with such sizes the best hypothesis passed labels that maximise that objective over all N^T label sequences, for ASG and CTC |
| `FreeExact.FreeDecodeIsExact` | src/libraries/decoder/LexiconFreeDecoder.cpp:92-197 | the same for complete decodings: with such sizes the first final hypothesis maximises the objective including the end of the sentence |
| `FreeExact.FreeIsViterbi` | src/libraries/decoder/LexiconFreeDecoder.cpp:102-177 | with such sizes, for ASG with a zero language model and silScore 0, the best hypothesis is a best Viterbi path |
| `FreeMass.NextCarries` | src/libraries/decoder/LexiconFreeDecoder.cpp:102-177 | with log-add, a frame that drops nothing keeps this: each state is held once, with exactly the mass of all the label sequences that lead to it, and each label sequence leads to one |
| `FreeMass.FreeCarries` | src/libraries/decoder/LexiconFreeDecoder.cpp:102-177 | with room for N^t hypotheses and a threshold that lifts any single label sequence to the mass of all of its length, that holds in every frame of every log-add decoding |
| `FreeMass.FreeTotal` | src/libraries/decoder/LexiconFreeDecoder.cpp:102-177 | so the beam of frame t carries the mass of all N^t label sequences, the forward score of the whole search space |
| `FreeMass.AmpleMassExists` | src/libraries/decoder/LexiconFreeDecoder.cpp:102-177 | for any decoder, frames and exponential mass some such sizes exist |
| `ConvLms.HistoryIsSuffix` | src/libraries/lm/ConvLM.cpp:77-92 | after scoring any sentence word by word, the history kept is the end of the sentence, however often it was truncated on the way |
| `ConvLms.ConvLm.Start` | src/libraries/lm/ConvLM.cpp:57-68 | the start state is the end-of-sentence token alone; nothing is cached afterwards |
| `ConvLms.ConvLm.ScoreWithLmIdx` | src/libraries/lm/ConvLM.cpp:70-127 | with the cache keyed by address alone, the score is the network's for the history cached under the address, or for the state's own when there is none, which is then cached, alone when the cache was full; the invariant (addresses a bijection with the first rows, each row the network's answer) is kept; an invalid token is refused and changes nothing |
| `ConvLms.AnsweredExactly` | src/libraries/lm/ConvLM.cpp:101-121 | an answer is for the state's own history if and only if nothing cached under its address has another one |
| `ConvLms.OwnScoreExactly` | src/libraries/lm/ConvLM.cpp:101-121 | so the score is right whatever the network if and only if that holds; otherwise some network tells |
| `ConvLms.RunExactly` | src/libraries/lm/ConvLM.cpp:57-236 | a run of start, score, finish and updateCache calls gives the network's own scores throughout, whatever the network, if and only if that holds at each of its queries |
| `ConvLms.StaleAnswer` | src/libraries/lm/ConvLM.cpp:101-108 | two queries at one address with different histories: the second is answered for the history of the first, and some network shows it |
| `ConvLms.ReuseDecides` | src/libraries/lm/ConvLM.cpp:57-236 | every run on states of a given pool gives the network's own scores, whatever the network, if and only if no two states of the pool share an address and differ in history |
| `ConvLms.RunFits` | src/libraries/lm/ConvLM.cpp:101-121 | after a valid query its address is cached, and a run never caches more than beamSize |
| `ConvLms.ConvLm.Compact` | src/libraries/lm/ConvLM.cpp:162-171 | the rows still wanted move down in order, none overwritten before it is read |
| `ConvLms.ConvLm.SelectBatch` | src/libraries/lm/ConvLM.cpp:186-207 | missing states get the next cache rows and their padded histories the rows of the flat batch, without overlap or overrun |
| `ConvLms.ConvLm.UpdateCache` | src/libraries/lm/ConvLM.cpp:143-236 | succeeds if and only if the states fit the cache and no missing history exceeds the batch memory; then what was cached and is wanted stays first, in order, and the missing states follow, each address once, with the network's rows; on failure what is cached is still correct |
| `Seq2SeqBeam.NeverPastSorted` | src/criterion/Seq2SeqCriterion.cpp:440-468 | the scan of candidates stops within the sorted first 2*beamSize, whatever the scores |
| `Seq2SeqBeam.ScanKeepsBest` | src/criterion/Seq2SeqCriterion.cpp:452-468 | the new beam is the best beamSize extensions that do not end, best first; every other one scores no more |
| `Seq2SeqBeam.SomeKept` | src/criterion/Seq2SeqCriterion.cpp:480-480 | the new beam is never empty, so its first element exists |
| `Seq2SeqSearch.StopIsSafe` | src/criterion/Seq2SeqCriterion.cpp:472-483 | from a state meeting the stopping test, any further search ends with the same complete hypotheses |
| `Seq2SeqSearch.Step` | src/criterion/Seq2SeqCriterion.cpp:408-475 | one step is an allowed extension, its beam is non-empty, at most beamSize and sorted |
| `Seq2SeqSearch.BeamSearch` | src/criterion/Seq2SeqCriterion.cpp:393-491 | the result is what the search holds when it stops, and any search that goes on from there to maxLen ends with the same hypotheses |
| `Seq2SeqScore.RunMeans` | src/criterion/Seq2SeqCriterion.cpp:404-470 | in every search from the empty hypothesis, an open hypothesis has the state and log-probability the model gives its tokens fed one by one, each after the token before it; a complete one has that and the log-probability of the end, which is not in its path |
| `Seq2SeqScore.EndsAreBest` | src/criterion/Seq2SeqCriterion.cpp:453-460 | the complete hypotheses a step collects are the ends among a best beamSize of all extensions |
| `TrieClass.Trie.Insert` | src/libraries/decoder/Trie.cpp:24-46 | afterwards the paths are those before and the valid prefixes of the spelling; the node of the spelling holds the word last, unless six share the spelling already; all other words stay; an index out of range is refused |
| `TrieClass.Trie.Search` | src/libraries/decoder/Trie.cpp:48-61 | finds exactly the paths some insertion went along, and the node holds the words the path spells; an index is refused exactly when the walk along existing paths reaches one out of range |
| `TrieClass.Trie.Smear` | src/libraries/decoder/Trie.cpp:77-99 | every node's score becomes, over the words that begin with its path, their total mass (log-add) or the largest mass of one spelling (max); nothing else changes |
| `Tries.MaxIsAdmissible` | src/libraries/decoder/Trie.cpp:77-93 | a max-smeared score is never below the score of a word that can still be spelled |
| `Tries.HomophonesAddUp` | src/libraries/decoder/Trie.cpp:79-81 | whenever two words below a node share a spelling, there are positive scores for which max smearing exceeds every single word |
| `Tries.MaxIsBestWord` | src/libraries/decoder/Trie.cpp:77-93 | for given spellings, max smearing yields the largest single word whatever the scores if and only if no two words below the node share a spelling |
| `TrieLexicon.ExportedIsLexicon` | src/libraries/decoder/Trie.h:27-52 | a trie in any state its operations reach is a lexicon the decoder theorems apply to |
| `TrieLexicon.ExportedWalk` | src/libraries/decoder/Trie.h:27-52 | its paths are exactly the paths insertions went along |
| `TrieLexicon.ExportedSpells` | src/libraries/decoder/LexiconDecoder.cpp:143-147 | the decoder's lexicon spells, at non-empty paths, exactly the known words that were inserted and kept |
| `TrieLexicon.ExportedSmear` | src/libraries/decoder/LexiconDecoder.cpp:137-138 | after smearing in either mode, the decoder's look-ahead on the way to a word is never below the log of the word's own score; it is the log of the total mass, or of the largest mass of a spelling, of the words that can still be spelled |
| `TrieLexicon.RepeatedEndOfWords` | src/libraries/decoder/LexiconDecoder.cpp:186-202 | for a trie, the condition under which CTC frames spell words is one on the inserted words: none is one token or ends in the same token twice |
| `BatchPacker.GetBatches` | src/data/W2lDataset.cpp:119-166 | batch i of a rank holds the consecutive samples of that rank in the i-th shuffled global batch |
| `BatchPacker.DealtOnce` | src/data/W2lDataset.cpp:145-164 | over all global batches and ranks, every used sample is in exactly one batch |
| `BatchPacker.DealtAreSamples` | src/data/W2lDataset.cpp:145-164 | no batch holds anything else, and the used samples are a prefix |
| `BatchPacker.ShardSizes` | src/data/W2lDataset.cpp:126-160 | no batch is empty or exceeds batchSize, and the ranks of one iteration differ by at most one sample |
| `BatchPacker.BatchFollows` | src/data/W2lDataset.cpp:140-160 | rank by rank and global batch by global batch, each batch goes on where the one before ends; within a global batch they do not grow |
| `BatchPacker.BatchesTile` | src/data/W2lDataset.cpp:140-160 | the first starts with sample 0, the last ends with the last used one, and all but those of the last global batch are full |
| `BatchPacker.FewLeftOut` | src/data/W2lDataset.cpp:126-135 | fewer than worldSize samples are left out, also when there is no batch at all; there is none exactly when no sample is used |
| `BatchPacker.GlobalBatchIdx` | src/data/W2lDataset.cpp:68-70 | the first sample of any rank's batch determines the global batch, the same for all ranks |
| `Prefetch.Dataset.Get` | src/data/W2lDataset.cpp:77-109 | under any interleaving with workers and shuffles, a batch is served with the features of its current contents, and afterwards exactly the next nThreads valid indices are cached, those that were already with what they had |
| `Prefetch.Dataset.WorkerStep` | src/data/W2lDataset.cpp:102-105 | a worker finishing makes its entry the current features of its batch and changes no other |
| `Prefetch.Dataset.Shuffle` | src/data/W2lDataset.cpp:111-117 | no entry survives new batches |
| `Replabels.PackReplabels` | src/libraries/common/WordUtils.cpp:114-146 | the loop computes the fold the packing laws are about, empty input and replabels off included |
| `Replabels.PackedByRuns` | src/libraries/common/WordUtils.cpp:127-145 | packing is run by run: a run of n tokens becomes chunks of a token and a label for at most maxReps repetitions, as long as they last |
| `Replabels.UnpackReplabels` | src/libraries/common/WordUtils.cpp:148-174 | the loop computes the unpacking fold |
| `Replabels.UnpackedIsPieces` | src/libraries/common/WordUtils.cpp:160-173 | any sequence unpacks position by position: a plain label to itself, a repetition label right after a plain one to that many copies of it, any other repetition label to nothing |
| `Replabels.ValueIsFirst` | src/libraries/common/WordUtils.cpp:155-158 | a label met twice in the map keeps its first count |
| `Replabels.RoundTrip` | src/libraries/common/WordUtils.cpp:114-174 | for non-negative tokens, unpacking undoes packing if and only if no token is a repetition label |
| `Replabels.PackedIsUniq` | src/data/Featurize.cpp:139-144 | with replabels on, a packed target has no equal neighbours and `uniq` drops nothing |
| `LinearTarget.StretchRoundTrip` | src/common/Transforms.h:23-42 | deduplicating any stretching of a packed target over frames and unpacking it restores the tokens |
| `Predictions.UniqInPlace` | src/common/Transforms.h:23-30 | the in-place `uniq` keeps the first of each run |
| `Predictions.CtcPrediction` | src/common/Utils.cpp:210-217 | `uniq` and blank removal in place leave the collapse of the frame labels |
| `Workspaces.Workspace.Request` | src/libraries/common/Workspace.h:33-39 | places the block at the aligned offset after the blocks before |
| `Workspaces.Workspace.GetRequiredSize` | src/libraries/common/Workspace.h:45-48 | with a null base, the size asked for is that of the blocks plus room to align the base |
| `Workspaces.MeasureFits` | src/libraries/common/Workspace.h:43-55 | the offsets measured with a null base predict those of any base, up to the padding of the base |
| `Workspaces.LayoutFits` | src/libraries/common/Workspace.h:27-55 | at any base and for any requests, blocks are aligned, pairwise disjoint and inside memory of the measured size |
| `Workspaces.SizeIsTight` | src/libraries/common/Workspace.h:45-48 | and no smaller size would do for every base |

## Left out

- Floating point: rounding, NaN, infinities as values, and the single-precision casts of thresholds and scores are replaced by exact reals; the cut-off of the trie's log-add for far-apart scores is not modelled.
- Batches of samples: criteria are modelled for one sample; the loop over samples with OpenMP, and the loss scale factors, only repeat it.
- CtcBackward.Backward: asks for L + R <= T and positive weights; a target that does not fit has no labeling at all (its total is 0, by `CtcBackward.FitsExactly`), so there are no posteriors the gradient could be, and the source reads the saved forward cells with another row length than they were written with.
- FacBackward.Backward: asks, like the forward pass, for 1 <= target size <= T; a target of padding only is not modelled.
- DecoderScore.LexiconObjective: is about decodings without log-add; with log-add a score is a sum over chains (shown without a lexicon, `FreeMass.FreeCarries`).
- LexExact.LexDecodeIsExact: is about decodings without log-add, like the objective it maximises.
- The two sequence-to-sequence decoder classes: the same candidate machinery around an acoustic callback.
- The attention models, windows and the greedy `viterbiPath` of the sequence-to-sequence criterion: tensor calls without visible semantics.
- KenLM, the zero language model's class, and the index map from user tokens to language-model tokens: thin wrappers.
- `validateIdx` drops negative and unknown indices, `remapLabels` trims end-of-sentence, silence and surround tokens around unpacking, dictionaries map strings to indices: no modelled result depends on them beyond the indices they yield.
- Feature extraction, sound input, serialization, training and decoding programs, CUDA backends.
- Wrap-around of machine integers and addresses.
