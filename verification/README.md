# Verified models of the 1bit engine's reference decoders, formats and alias tooling

The repository runs language models on AMD hardware. Around the engine it keeps small reference
decoders, writers and readers of weight containers, bit-level decoders, comparison harnesses, and
tools that maintain the table of architecture names in the engine header. Most of these exist in a
simple form and in a fast or stateful form, or edit text that something else interprets, and it is
the agreement of the two that matters. This project models them and proves that agreement.

- `EditDistance`, `AliasGuess`, `DraftPr`: the alias tool. Its Levenshtein computation against
  scripts of single edits, the three guessing rules and the filing decision, and the git run that
  proposes a line, with every command free to fail or raise.
- `Alias`, `AliasChain`, `AliasScan`, `TailSweep`: the first-match chain of the header as text. The
  pattern of a definition character by character, the tool's table against the chain, the two
  programs that rewrite the header, and the scan for repeated names.
- `CachedDecoding`: one token at a time with key/value lists against recomputing every prefix.
- `Wkv`, `Recurrences`, `Rope` (with `Reals`): running states against explicit sums over the whole history, and the
  two layouts of rotary embedding.
- `RoundTowardNegative`, `Iq1m`, `Safetensors`, `Gguf` (with `Bytes`): bit and byte formats.
- `Sorting`, `TopK`, `GroupRouting`: selections of the best scores.
- `Int8Gemm`: the quantised matrix product and its error.
- `CensusSweep`, `CensusCoverage` (with `Tally`): counters whose totals must balance.

State that the source updates in place is a class or an array here, loops are loops, and each such
method is tied to a function or a predicate that the lemmas then speak about.

Arithmetic is over the reals, and `exp` is any function with `exp(x + y) = exp(x) * exp(y)`,
positive and increasing. Rotations are powers of a unit rotation. Formats work on bits and bytes.

Where the code does less than its comments or its reader might expect, the model follows the code
and gives the exact condition:

- The incremental and the recomputing decoders agree only when at least one token is asked for
  (`CachedDecoding.CacheIsInvisible`).
- The half-precision conversion is wrong for every subnormal, and for nothing else
  (`Iq1m.HalfToSingleExact`).
- A tensor called `__metadata__` is written and never read back (`Safetensors.ContainerRoundTrip`);
  headers read back only for names that are UTF-8 without quotes, backslashes and control characters
  (`Safetensors.HeaderRoundTrip`).
- The GGUF writer puts no padding between payloads, so offsets are aligned only if all payloads but
  the last have sizes that are multiples of 32 (`Gguf.OffsetsAligned`).
- The insertion top eight starts from eight copies of token 0, so it lists token 0 several times
  unless seven tokens beat it (`TopK.InsertionIsTopIff`).
- Destructive argmax repeats an index once the scores above its overwrite value are used up
  (`TopK.PicksDistinctIff`).
- The selection check of the indexer looks at one of the five things that make a selection valid
  (`TopK.CheckIsPartOfValid`): it passes rows that miss the best entry, see an invisible one, repeat
  one or pick none. Even for complete distinct visible picks passing is enough only on some rows
  (`TopK.PassingIsEnoughIff`).
- A tail slice of 0 entries is the whole list, so with no groups allowed the second routing chooses
  among all experts, and with no experts wanted it picks all of them (`GroupRouting.ZeroGroupsDiffer`,
  `GroupRouting.ZeroPicksDiffer`).
- The sweep writes its count of models without architectures over the count of an architecture of
  that name (`CensusSweep.FilesBalance`).
- The tail sweep calls itself idempotent. Rerunning it takes out exactly the block written last if
  and only if no mark is left above the anchor (`TailSweep.BlockRemovedIff`). Then no answer of the
  chain changes, but the text gains a line every time (`TailSweep.PatchReplaces`). With one mark left
  there the rerun aborts (`TailSweep.LoneMarkAborts`), and with a whole old block left it loses answers
  (`TailSweep.SecondBlockLost`).
- An alias is added before the last return of the header. The engine sees it only if no earlier
  line returns (`AliasChain.AliasEffect`).
- The draft run gives the header back as it found it only if it was clean; changes that git keeps when
  it switches to the tool's branch are committed with the alias (`DraftPr.Checkout.OpenDraftPr`).
- The scan for repeated names covers the function's lines, while a table reader reads the whole
  header: after a clean scan two readers disagree exactly on names whose first and last tokens in the
  header differ (`AliasScan.CleanScanAgrees`, with a case in `AliasScan.CleanYetDisagreeing`).

## Model

| member | source | states |
|---|---|---|
| EditDistance.Distance | Testing/census_autopr.py:114-125 | the two-row table returns the length of a shortest insert/delete/replace script: one of that length exists and none is shorter |
| EditDistance.LevScript | Testing/census_autopr.py:114-125 | a script as long as the recurrence says turns each prefix of one string into each prefix of the other |
| EditDistance.LevLowerBound | Testing/census_autopr.py:114-125 | no script, in whatever order and through whatever strings it goes, is shorter than the recurrence says |
| EditDistance.ShortestScript | Testing/census_autopr.py:114-125 | for every two strings the recurrence is the length of a shortest script |
| EditDistance.ShortestIsLev | Testing/census_autopr.py:114-125 | being the length of a shortest script determines the number |
| EditDistance.ShortestIsMetric | Testing/census_autopr.py:114-125 | that length is zero only between equal strings, symmetric, subject to the triangle inequality, and between the difference of the lengths and the longer length |
| AliasGuess.NormTwice | Testing/census_autopr.py:102-104 | normalising a normalised name changes nothing |
| AliasGuess.NormKeeps | Testing/census_autopr.py:102-104 | normalising keeps digits and small letters, lowers capitals and drops every other character, each in its place |
| AliasGuess.FindExact | Testing/census_autopr.py:139-142 | the first table entry with the same normalised name, or the fact that there is none |
| AliasGuess.FindClose | Testing/census_autopr.py:147-157 | the closest entry within two edits among names of eight characters or more, the earliest of equally close ones; passing over an entry spelled like the query never matters |
| AliasGuess.ByLength | Testing/census_autopr.py:161 | all entries in order of decreasing length, equally long ones in table order |
| AliasGuess.FindFamily | Testing/census_autopr.py:161-167 | the longest entry of four characters or more that the name properly begins with |
| AliasGuess.GuessEx | Testing/census_autopr.py:128-167 | the three rules in their order, each with the entry it must choose |
| AliasGuess.GuessIsUnique | Testing/census_autopr.py:128-167 | the guess is determined by the normalised name, so every spelling gets the same one |
| AliasGuess.ExactGuessIsChains | Testing/census_autopr.py:139-142 | a guess carries the token the header's first definition gives that name, and is exact only when some entry is the same name |
| AliasGuess.MaybeFile | Testing/census_autopr.py:376-425 | the list of filings and the pull requests attempted, name by name |
| AliasGuess.FiledIff | Testing/census_autopr.py:391-425 | an entry is filed exactly for a name with a guess that neither the self-check nor the review record settles: without an address for a fuzzy one with the switch off, else as a dry run in dry runs, else with what opening the pull request came to |
| AliasGuess.AttemptedIff | Testing/census_autopr.py:397-421 | a pull request is attempted exactly for an exact guess, or a fuzzy one with the switch on, outside dry runs, when the self-check does not hold the name and no name on the review record is normalised alike |
| AliasGuess.ReviewedNeverAttempted | Testing/census_autopr.py:183-208 | once a name is on the review record no spelling of it is attempted again |
| AliasGuess.AttemptsAreRenames | Testing/census_autopr.py:376-424 | without the fuzzy switch every attempt is for a name that some known name equals once both are normalised |
| Alias.DefOfLine | Testing/census_autopr.py:170-172 | the proposed line, read with the definition pattern, defines exactly the name and token it was written for |
| Alias.MatchIsPattern | Testing/arch_alias_selfcheck.py:39 | a reader takes a definition at a position if and only if the text there has the pattern's form: blanks allowed at its four optional places and needed behind `return`, a name of the reader's characters, a token as long as it goes |
| Alias.SearchIsLeftmost | Testing/census_autopr.py:93-95 | what a line defines is the match at the leftmost position that has one, and nothing when none has |
| Alias.MatchesAgree | Testing/arch_alias_selfcheck.py:39 | the tool's pattern matches where the self-check's does with a name of lower-case letters, digits, underscores and dashes, and gives the same definition |
| Alias.SearchesAgree | Testing/census_autopr.py:93-95 | both patterns find the same definition in a line unless the self-check's has a name the tool cannot spell and the tool finds another; the tool never finds one where the self-check finds none |
| Alias.OneTestAgrees | Testing/census_autopr.py:93-95 | on a line with one test of the name, as every line of the header has, they always find the same |
| AliasChain.KnownMappings | Testing/census_autopr.py:86-99 | the table has one entry per name, the first definition in the text, in order of appearance |
| AliasChain.TableIsChain | Testing/census_autopr.py:70-99 | where the two patterns agree line by line, for every name the tool can spell the table's answer is the chain's, except that a name the chain does not map may have a definition behind the chain's return |
| AliasChain.Header.ApplyAlias | Testing/census_autopr.py:219-239 | nothing changes when the name is quoted anywhere or there is no return to insert before; otherwise the proposed line goes before the last return of all |
| AliasChain.AliasEffect | Testing/census_autopr.py:219-239 | unless a return precedes the new line, every name without an answer afterwards has that line's and all others keep theirs; the line answers its name with the token exactly when the name holds no quote, and then no other name |
| AliasChain.ApplyTwice | Testing/census_autopr.py:229-230 | asking again for a name, with any token, changes nothing |
| AliasChain.TableAfterAlias | Testing/census_autopr.py:219-239 | the tool's own table takes what the line defines between the definitions above and below it; that is its name exactly when the tool can spell it, and then no other |
| AliasChain.DefIsQuoted | Testing/census_autopr.py:211-214 | a name that some line defines stands in that line between quotes, so looking for the quoted name misses no definition |
| AliasScan.DuplicateScan | Testing/arch_alias_selfcheck.py:43-81 | the function's lines are found from its first opening line to the next closing brace; exactly the names defined more than once are reported, with whether their tokens agree, and the floor is on distinct names |
| AliasScan.ReadersTakeEnds | Testing/arch_alias_selfcheck.py:6-11 | a first-match reader answers with the first of a name's definitions and a last-match reader with the last |
| AliasScan.ReadersDisagreeIff | Testing/arch_alias_selfcheck.py:68-75 | the two readers disagree on a name exactly when it has several definitions whose first and last tokens differ, so repeats of one token are harmless |
| AliasScan.CleanScanAgrees | Testing/arch_alias_selfcheck.py:68-75 | after a clean scan both readers agree on every name within the function, and over the whole header they disagree exactly on the names whose first and last tokens before, in and behind the function differ |
| AliasScan.CleanYetDisagreeing | Testing/arch_alias_selfcheck.py:51-66 | for every name and two tokens, a header with one definition above the function and the other in it passes the scan, and the readers disagree |
| TailSweep.Patch | Testing/apply_tail_sweep.py:17-34 | the text without the old block and with the new one behind the only anchor; an error and an untouched file when the end mark is missing or the anchor is not there once |
| TailSweep.RemovedIs | Testing/apply_tail_sweep.py:20-29 | a text without the start mark is left as it is, one with it and no end mark refused, and any other loses what lies from the first start mark to the end of the first end mark |
| TailSweep.AnchorIff | Testing/apply_tail_sweep.py:30-32 | the rewriting goes on if and only if the anchor stands in the text exactly once, and the two sides it is split into make up the text, the first ending in the anchor |
| TailSweep.PatchLookup | Testing/apply_tail_sweep.py:17-34 | afterwards names are answered by the text up to the anchor, then by the block, then by what follows, unless the chain returns above the anchor; without the block it would be the first and the last |
| TailSweep.PatchReplaces | Testing/apply_tail_sweep.py:17-34 | rewriting the result with any list of aliases succeeds and answers every name as rewriting the original with that list would, in a text one line longer, when no mark is left above the anchor |
| TailSweep.SecondBlockLost | Testing/apply_tail_sweep.py:20-24 | with two old blocks above the anchor the first run takes one and the second the other, and a name only the latter defines is answered after the first run and lost after the second |
| TailSweep.BlockRemovedIff | Testing/apply_tail_sweep.py:20-24 | cutting a rewritten text leaves the text that was rewritten and one blank line if and only if no mark is left above the anchor |
| TailSweep.LoneMarkAborts | Testing/apply_tail_sweep.py:20-31 | with exactly one of the two marks left above the anchor the rewritten text is refused: the cut copies the anchor or takes it out |
| TailSweep.BlockLookup | Testing/apply_tail_sweep.py:46-51 | in a block each alias answers with its token and the marks define nothing |
| DraftPr.Checkout.SwitchCreate | Testing/census_autopr.py:304-311 | makes or rebuilds the tool's branch at origin's main and moves there, keeping each changed part that the switch would not change or that is staged as in the target, or refuses and changes nothing |
| DraftPr.BranchesApart | Testing/census_autopr.py:249 | every name has a branch of its own, with the tool's prefix |
| DraftPr.Checkout.Prepare | Testing/census_autopr.py:304-343 | whichever command fails or raises, only the tool's branch may move, to the base or to a commit of the line on it; if the run continues that commit is made and the checkout clean |
| DraftPr.Checkout.Publish | Testing/census_autopr.py:319-352 | only the tool's branch is pushed, as it stands locally; an address is returned only when it was |
| DraftPr.Checkout.GiveBack | Testing/census_autopr.py:353-373 | index and worktree hold the header of the commit arrived at, an uncommitted alias gone, other staged content kept |
| DraftPr.Checkout.OpenDraftPr | Testing/census_autopr.py:282-373 | from any start a run ends on the branch it began on if git names one, else at the commit it began at if git knows it, else where the commands left it, with the header of the commit there in index and worktree, so off the tool's branch local header changes survive exactly when there were none; it raises before touching anything when either question raises, and ends with a failed fetch's verdict; a commit once made stays on its branch, and it is origin's main plus exactly the line if and only if what the switch kept is as in origin's main; other branches and the rest of the remote stay; a clean start ends clean, and if the commands up to the commit succeed the proposal exists whatever fails later, and if all do it is pushed and drafted |
| DraftPr.ProposalEffect | Testing/census_autopr.py:219-239 | merging a proposal adds one line and changes the answers that line gives to names without one, which for a name without a quote is the name alone |
| DraftPr.ProposalIff | Testing/census_autopr.py:289-303 | what is committed on the base is the proposal exactly when the header under the line and everything beside it are the base's, as they are from every clean start |
| CachedDecoding.Decoder.Block | Testing/e2e_numpy_ref_cohere2moe.py:101-109 | one layer appends one entry to its own list and sees all entries so far |
| CachedDecoding.Decoder.Feed | Testing/e2e_numpy_ref_cohere2moe.py:117-122 | feeding a token leaves in every layer, at every position, the entry a full recomputation makes, and predicts the same next token |
| CachedDecoding.Decoder.Forward | Testing/e2e_numpy_ref_cohere2moe.py:111-134 | for every prompt and length the cached loop returns as many tokens as asked for and at least one, each the choice after all before it, and an error for an empty prompt |
| CachedDecoding.MaskedLayer | Testing/e2e_numpy_ref_cohere2.py:64-88 | under the causal mask row t mixes exactly the entries of positions 0 to t |
| CachedDecoding.NextIsLastLayer | Testing/e2e_numpy_ref_cohere2moe.py:117-122 | a choice is what the readout makes of the last position behind the last layer, for any values that satisfy every layer's equation at every position |
| CachedDecoding.RecomputedForward | Testing/e2e_numpy_ref_cohere2.py:97-120 | recomputing every prefix returns exactly as many tokens as asked for, each the choice after all before it, and an error for an empty prompt when one is asked for |
| CachedDecoding.PrefixStable | Testing/e2e_numpy_ref_cohere2.py:84 | later tokens change nothing that earlier positions computed, at any layer |
| CachedDecoding.GreedyUnique | Testing/e2e_numpy_ref_cohere2.py:102-119 | the greedy continuation is the only list in which each token is the model's choice after all before it |
| CachedDecoding.CacheIsInvisible | Testing/e2e_numpy_ref_cohere2moe.py:111-134 | on a nonempty prompt both decoders return the same tokens if and only if at least one is asked for |
| Wkv.Channel.Attend | Testing/e2e_numpy_ref_rwkv.py:54-72 | the channel's state always is the state after its history, and the output is read before the token is stored |
| Wkv.StateIsDecayedSums | Testing/e2e_numpy_ref_rwkv.py:38-52 | the stabilised numerator and denominator times the exponential of the running maximum are the unshifted sums of the whole history, each key aged by minus the exponential of the decay parameter at every later token |
| Wkv.OutputIsWeightedAverage | Testing/e2e_numpy_ref_rwkv.py:39-44 | each output is the explicit weighted average of all past values, the current one with its bonus |
| Wkv.OutputWithinValues | Testing/e2e_numpy_ref_rwkv.py:39-44 | the output lies between the least and the greatest value seen |
| Wkv.ExponentsNeverPositive | Testing/e2e_numpy_ref_rwkv.py:39-48 | every exponent is at most 0 and one of each pair is 0 |
| Wkv.DenominatorAtMostCount | Testing/e2e_numpy_ref_rwkv.py:45-51 | the denominator is never more than the number of tokens |
| Wkv.DenominatorInRange | Testing/e2e_numpy_ref_rwkv.py:45-51 | it is between 1 and the number of tokens after every token exactly when the first key reaches the decayed initial maximum |
| Recurrences.LightningHead.Attend | Testing/e2e_numpy_ref_minimax.py:81-85 | each column of the output is the sum over all tokens of ratio to the age, times query dot key, times value |
| Recurrences.ReadIsDecayedSum | Testing/e2e_numpy_ref_minimax.py:81-85 | reading the state is the decayed sum over the history, for all decays, dimensions and lengths |
| Recurrences.FixedRatioDecays | Testing/e2e_numpy_ref_minimax.py:84 | with one ratio the product of later decays is a power of it |
| Recurrences.ScanHead.Scan | Testing/e2e_numpy_ref_nemotronh.py:91-98 | with a decay that changes from token to token each output is the unrolled sum with products of later decays, plus the skip |
| Recurrences.ScanIsDecayedSum | Testing/e2e_numpy_ref_nemotronh.py:94-98 | the state read by rows is the unrolled sum |
| Recurrences.DeltaWriteReadback | Testing/e2e_numpy_ref_qwen3next.py:92-98 | a delta write moves what its own key retrieves towards the new value by the gate times the squared norm of the key, and all the way when that is 1 |
| Recurrences.DeltaLeavesOrthogonal | Testing/e2e_numpy_ref_qwen3next.py:92-98 | what a query orthogonal to the key retrieves only decays |
| Recurrences.DeltaIsWriteSum | Testing/e2e_numpy_ref_qwen3next.py:90-98 | reading a delta state is the sum over all tokens of the values written, each weighted by the later decays and by its gate on the query taken back through all later writes |
| Recurrences.DeltaHead.Attend | Testing/e2e_numpy_ref_qwen3next.py:90-98 | each output of a head is that sum over everything it has seen |
| Recurrences.RollingConv.Roll | Testing/e2e_numpy_ref_nemotronh.py:69-72 | the window always holds the last inputs, oldest first, zeros before the beginning |
| Recurrences.RollingConv.StepNewestLast | Testing/e2e_numpy_ref_nemotronh.py:63-72 | with negative indices from the newest end the output is the zero-padded causal convolution of the whole history |
| Recurrences.RollingConv.StepOldestFirst | Testing/e2e_numpy_ref_qwen3next.py:71-78 | with indices from the oldest end it is the same convolution |
| Recurrences.SumsMeet | Testing/e2e_numpy_ref_qwen3next.py:67-75 | the newest-first and the oldest-first partial sums complete each other at every tap |
| Rope.ApplyRope | Testing/e2e_numpy_ref_cohere2.py:47-62 | every row of every query and key head is rotated once, in place, by its own position |
| Rope.AdjacentStep | Testing/e2e_numpy_ref_cohere2.py:54-60 | position 0 leaves a vector as it is, and one position further each pair of neighbours is turned once more by the cosine and sine of its frequency |
| Rope.AdjacentTurnsPairs | Testing/e2e_numpy_ref_cohere2.py:41-60 | times the cosine plus the swapped and negated vector times the sine turns each adjacent pair by the rotation of its frequency at the position |
| Rope.AdjacentIsRotary | Testing/e2e_numpy_ref_cohere2.py:41-60 | the adjacent form keeps norms, and its scores depend on the difference of positions alone |
| Rope.PowerAdd | Testing/e2e_numpy_ref_afmoe.py:40-42 | positions add: the rotation at a sum of positions is the product of the rotations |
| Rope.HalfSplitStep | Testing/e2e_numpy_ref_afmoe.py:40-46 | the same for the coordinates i and h + i of the half-split form |
| Rope.HalfSplitRelative | Testing/e2e_numpy_ref_afmoe.py:43-46 | the score of a query and a key at two positions is the score of the rotation by the difference alone |
| Rope.HalfSplitShiftInvariant | Testing/e2e_numpy_ref_afmoe.py:37-46 | moving both positions by the same amount changes no score |
| Rope.HalfSplitKeepsNorm | Testing/e2e_numpy_ref_afmoe.py:43-46 | rotation keeps norms, for every even dimension |
| Rope.LayoutsConjugate | Testing/e2e_numpy_ref_afmoe.py:43-46 | the adjacent form is the half-split form between one fixed rearrangement of the coordinates and its inverse |
| Rope.DeinterleaveUndone | Testing/e2e_numpy_ref_cohere2.py:41-45 | gathering even and odd places and interleaving halves undo each other, so both only permute |
| Rope.LayoutsGiveSameScores | Testing/e2e_numpy_ref_cohere2.py:41-62 | with queries and keys both permuted the two layouts give the same attention scores |
| RoundTowardNegative.GreatestNotAbove | Testing/aie2p_bf16_rni_selfcheck.cpp:27-32 | for any mantissa width and any number of dropped bits, truncating and bumping negative inexact patterns gives the greatest short number not above the input, through subnormals, binade crossings and overflow |
| RoundTowardNegative.RoundMonotone | Testing/aie2p_bf16_rni_selfcheck.cpp:27-32 | that rounding is monotone |
| RoundTowardNegative.MagnitudeWidens | Testing/aie2p_bf16_rni_selfcheck.cpp:22-25 | a pattern filled up with zeros has the same value in the longer format |
| RoundTowardNegative.Bf16RuleIsRound | Testing/aie2p_bf16_rni_selfcheck.cpp:27-42 | both shift-and-add rules are that rounding at 16 dropped bits on everything that is not a NaN |
| RoundTowardNegative.Bf16RoundsTowardNegative | Testing/aie2p_bf16_rni_selfcheck.cpp:27-32 | the hardware form is roundTowardNegative from fp32 to bf16 in the sense of IEEE 754-2019, section 4.3.2, on every sum that is not a NaN |
| RoundTowardNegative.Bf16CastWraps | Testing/aie2p_bf16_rni_selfcheck.cpp:31 | on arbitrary 32-bit patterns the bump leaves 16 bits exactly for the negative NaN patterns whose upper half is all ones and whose lower half is not zero |
| RoundTowardNegative.NanSumKept | Testing/aie2p_bf16_rni_selfcheck.cpp:27-32 | no sum of two bf16 values is such a pattern when a NaN takes an operand's payload or the default one: the rule then only drops a zero half |
| RoundTowardNegative.HardwareDiffersFromRule | Testing/aie2p_bf16_rni_selfcheck.cpp:45-50 | outside NaNs the hardware form differs from the rule on negative zero only, and every NaN sum becomes the one NaN 0x7f81 |
| Iq1m.DequantKernel | Testing/iq1_selfcheck.cpp:37-68 | the loop with a running index writes slots 0 to 255 in order, each once, each with its own value, and nothing beyond |
| Iq1m.DequantReference | Testing/iq1_selfcheck.cpp:74-104 | the loop with a moving pointer writes the same 256 values |
| Iq1m.LaneIndexInGrid | Testing/iq1_selfcheck.cpp:48-52 | every index into the codebook is below 2048 |
| Iq1m.LaneBits | Testing/iq1_selfcheck.cpp:48-57 | an index is its own byte below three bits of the low or the high half of the byte two lanes share, and the fourth bit of that half is the sign of the shift |
| Iq1m.ScaleBits | Testing/iq1_selfcheck.cpp:33-36 | each scale word is two bytes, the low one first, and its top four bits are its digit of the half-precision scale, the first word lowest |
| Iq1m.HalfScaleBits | Testing/iq1_selfcheck.cpp:43-46 | the scale of a half sub-block is the block's times twice its own three bits plus one |
| Iq1m.ScalesUnpack | Testing/iq1_selfcheck.cpp:33-36 | packing a scale and sixteen subscales into four words and reading them gives them back |
| Iq1m.ScalesRepack | Testing/iq1_selfcheck.cpp:33-47 | the words are determined by what is read from them: no bit is lost and none is read twice |
| Iq1m.HalfToSingleExact | Testing/iq1_selfcheck.cpp:21-30 | the conversion keeps the value of a half that is not a NaN if and only if it is not a nonzero subnormal; one with mantissa m comes out as (0x400 + m) / 2 smallest subnormals instead of m |
| Iq1m.HalfNaN | Testing/iq1_selfcheck.cpp:27 | exactly the NaNs become NaNs |
| Iq1m.HalfKeepsFields | Testing/iq1_selfcheck.cpp:21-30 | every pattern keeps its sign, and its mantissa at the top of the longer one |
| Safetensors.WriteContainer | Testing/safetensors_weights_selfcheck.cpp:57-78 | the loop with running offsets produces the length, the rendered header of all infos and the concatenated payloads |
| Safetensors.OffsetsTileBlob | Testing/sharded_reader_selfcheck.cpp:26-34 | the offsets start at 0, end at the blob's length and each tensor begins where the one before ends, around its own bytes |
| Safetensors.HeaderRoundTrip | Testing/safetensors_weights_selfcheck.cpp:58-69 | decoding and parsing the rendered header gives the infos back if and only if names and dtypes are UTF-8, free of quotes, backslashes and control characters |
| Safetensors.Utf8Iff | Testing/e2e_numpy_ref_afmoe.py:14 | a header is accepted as UTF-8 exactly when it is the encoding of some code points, surrogates included |
| Safetensors.UnicodeEscapeRead | Testing/e2e_numpy_ref_afmoe.py:14 | a character below 128 written as a `\u` escape in either case is read back |
| Safetensors.LoadSafetensors | Testing/e2e_numpy_ref_afmoe.py:11-29 | the reader, with its errors for headers that are not UTF-8 or not parsed, leading zeros included, for other dtypes and for sizes that do not fit |
| Safetensors.LoadIff | Testing/e2e_numpy_ref_afmoe.py:16-29 | loading succeeds if and only if every field decodes but the metadata and those a later field of the same name replaces, and returns exactly those |
| Safetensors.DecodeIff | Testing/e2e_numpy_ref_afmoe.py:19-27 | a field decodes if and only if its slice is four bytes per element of its shape for F32, two for BF16 |
| Safetensors.ContainerRoundTrip | Testing/e2e_numpy_ref_afmoe.py:11-29 | for every list of distinctly named readable F32 and BF16 tensors, loading what was written gives each back under its name with its shape and every element, and nothing else, except one named `__metadata__`; so it gives all of them back if and only if there is none |
| Safetensors.LoadedElements | Testing/e2e_numpy_ref_afmoe.py:19-25 | every tensor loaded from a written file has the shape written and as bit patterns its bytes, least significant first: four for F32, two above sixteen zero bits for BF16 |
| Safetensors.MetadataNameIsLost | Testing/e2e_numpy_ref_afmoe.py:18 | leaving the metadata field out loses a tensor if and only if one has that name |
| Safetensors.WordsRoundTrip | Testing/e2e_numpy_ref_afmoe.py:22 | the words of a payload are the words put in |
| Safetensors.WideningIsExact | Testing/e2e_numpy_ref_afmoe.py:23-25 | every BF16 element loaded from a written file has the value of the pattern its two bytes hold, and is a NaN exactly when that is |
| Safetensors.ShiftKeepsValue | Testing/e2e_numpy_ref_afmoe.py:24-25 | moving any BF16 pattern up by 16 bits keeps its value, and NaNs NaNs |
| Safetensors.MergeLookup | Testing/e2e_numpy_ref_qwen3next.py:239-241 | every tensor of name-disjoint shards is in the merged map, and only those |
| Safetensors.MergeOrderIrrelevant | Testing/e2e_numpy_ref_qwen3next.py:239-241 | the same shards in any order merge to the same map |
| Gguf.WriteInfos | Testing/make_mini_gguf.py:73-81 | the infos of all tensors with zero offsets |
| Gguf.PatchOffsets | Testing/make_mini_gguf.py:84-91 | the back-patch loop leaves the infos with the prefix sums of the payload sizes as offsets |
| Gguf.PatchOne | Testing/make_mini_gguf.py:88-90 | one turn replaces exactly the eight bytes of one placeholder and keeps all others |
| Gguf.WriteGguf | Testing/make_mini_gguf.py:67-95 | the whole file: header, patched infos, padding, payloads |
| Gguf.MagicFirst | Testing/make_mini_gguf.py:67 | the file starts with the four letters GGUF |
| Gguf.GgufRoundTrip | Testing/make_mini_gguf.py:61-95 | a reader of the GGUF v3 layout recovers all metadata, names, shapes and payloads from the file |
| Gguf.DataStartAligned | Testing/make_mini_gguf.py:83 | the data section begins at the next multiple of 32 |
| Gguf.OffsetsAligned | Testing/make_mini_gguf.py:84-93 | all tensor offsets are multiples of 32 if and only if all payload sizes but the last are |
| TopK.DestructiveTop | Testing/cmp_deepseek_v4.cpp:96-103 | the picks and the overwritten scores of taking a largest score again and again |
| TopK.OverwrittenAt | Testing/cmp_deepseek_v4.cpp:98-103 | afterwards the scores picked are -1e30 and all others as before |
| TopK.PicksAreTop | Testing/cmp_deepseek_v4.cpp:98-103 | as long as scores above the overwrite value remain the picks are distinct, best first, and nothing left out is better |
| TopK.PicksAreTopOfAll | Testing/cmp_deepseek_v4.cpp:98-103 | with all scores above it any number of picks up to the vocabulary is a valid selection |
| TopK.PicksDistinctIff | Testing/cmp_deepseek_v4.cpp:101-102 | exactly which numbers of picks are free of repeats |
| TopK.CountOverlap | Testing/cmp_deepseek_v4.cpp:104-107 | the double loop with its break counts the entries of one list found in the other, which for distinct picks is the size of the intersection |
| TopK.SortedIntersection | Testing/cmp_instella.cpp:72-76 | merging two sorted lists gives exactly the common indices, in order |
| TopK.OverlapsAgree | Testing/cmp_instella.cpp:71-76 | both ways of counting give the same overlap, in whatever order the picks were listed |
| TopK.InsertionTop | Testing/e2e_seq_gen.cpp:63-66 | the shifting loops, in place on eight slots, insert token after token |
| TopK.InsertionOrdered | Testing/e2e_seq_gen.cpp:63-66 | the slots come out best first and no unlisted token beats the last one |
| TopK.InsertionIsTopIff | Testing/e2e_seq_gen.cpp:63-66 | the eight slots hold eight different tokens, a valid top eight, if and only if at least seven tokens beat token 0 |
| TopK.RowPasses | Testing/cmp_deepseek_v4_indexer_scores.py:94-103 | the row check over the visible scores, the k-th best of them and the tolerance |
| TopK.RowOkIff | Testing/cmp_deepseek_v4_indexer_scores.py:94-103 | for every tolerance a row passes if and only if for each pick fewer visible scores than there are places exceed its score by more than the tolerance |
| TopK.CheckIsPartOfValid | Testing/cmp_deepseek_v4_indexer_scores.py:75-103 | whatever is picked, the picks are the k best visible entries if and only if they pass without tolerance, repeat nothing, see only visible entries, are complete and hold everything above the k-th best |
| TopK.PassingIsEnoughIff | Testing/cmp_deepseek_v4_indexer_scores.py:100-103 | for complete distinct visible picks passing implies validity on exactly the rows where as many entries reach the k-th best score as there are places, or nothing exceeds it |
| TopK.CheckPassesInvisible | Testing/cmp_deepseek_v4_indexer_scores.py:101-103 | a row that passes although it picks an entry that is not visible |
| TopK.CheckPassesRepeated | Testing/cmp_deepseek_v4_indexer_scores.py:101-103 | a row that passes although it picks one entry twice |
| TopK.CheckPassesNothing | Testing/cmp_deepseek_v4_indexer_scores.py:101-103 | every row passes that picks nothing, and is wrong when something is visible |
| TopK.CheckMissesBest | Testing/cmp_deepseek_v4_indexer_scores.py:100-103 | a row that passes although it leaves the best entry out |
| Sorting.ValidTopScores | Testing/cmp_instella.cpp:63-70 | the sorted scores of a valid selection are the front of all scores sorted |
| Sorting.ValidTopsAgree | Testing/cmp_deepseek_v4_indexer_scores.py:64-69 | any two valid selections of one size have equal sorted score lists, so they differ only among ties |
| Sorting.ValidTopUnique | Testing/cmp_instella.cpp:63-70 | without equal scores there is only one valid set of a size |
| GroupRouting.MaskGroups | Testing/e2e_numpy_ref_glm4moe.py:131-133 | exactly the experts of the chosen groups are marked |
| GroupRouting.GroupScoreIsTopTwo | Testing/e2e_numpy_ref_exaonemoe.py:88-89 | a group's score is the sum of two different experts of it and no two of them sum to more; the only score when there is one |
| GroupRouting.HeadRoutes | Testing/e2e_numpy_ref_exaonemoe.py:87-95 | masked with minus infinity and sliced from the front the picks are distinct, in kept groups and unbeaten there if and only if the kept groups have room for them |
| GroupRouting.TailRoutes | Testing/e2e_numpy_ref_glm4moe.py:126-136 | masked with the sentinel and sliced from the end they are when enough kept scores exceed the sentinel, however ties fall |
| GroupRouting.SentinelIff | Testing/e2e_numpy_ref_glm4moe.py:134-136 | with a group dropped and no kept score equal to the sentinel that many are also necessary |
| GroupRouting.BothCodingsRoute | Testing/e2e_numpy_ref_exaonemoe.py:84-95 | from scores to picks both codings keep the number of groups asked for, for any two experts of a dropped group two of every kept one whose scores sum to at least as much, and route within the kept groups |
| GroupRouting.CodingsAgree | Testing/e2e_numpy_ref_glm4moe.py:122-136 | without ties both codings keep the same groups and pick the same experts |
| GroupRouting.TailTakesCount | Testing/e2e_numpy_ref_glm4moe.py:130-136 | a tail slice has the number of entries asked for if and only if that number is not 0 or there are none |
| GroupRouting.ZeroGroupsDiffer | Testing/e2e_numpy_ref_glm4moe.py:130-136 | asked for no groups, the first coding can route nothing and the second picks the best of all experts |
| GroupRouting.ZeroPicksDiffer | Testing/e2e_numpy_ref_glm4moe.py:136 | asked for no experts, the first coding picks none and the second all, a routing only when there are none |
| GroupRouting.NormalisedWeights | Testing/e2e_numpy_ref_exaonemoe.py:96-99 | the normalised weights add up to the scaling factor |
| GroupRouting.GuardedWeights | Testing/e2e_numpy_ref_glm4moe.py:137-140 | with the guarded divisor the total of the weights stays strictly between 0 and a positive factor |
| Int8Gemm.PackB | replace_i8ctx.py:52-58 | the scale is the largest finite magnitude over 127; every weight is its rounded quotient without clamping, within half a step |
| Int8Gemm.RoundIsNearest | replace_i8ctx.py:57 | rounding takes the nearest integer, and of two equally near ones the one further from zero |
| Int8Gemm.Quantise | replace_i8ctx.py:59-65 | quantised activations in the first columns of each row, zeros in the padding |
| Int8Gemm.QuantisedNear | replace_i8ctx.py:61-63 | activations in range lose at most half a step |
| Int8Gemm.QuantisedSaturates | replace_i8ctx.py:63 | activations out of range become the nearest end of the grid |
| Int8Gemm.PaddingIsNeutral | replace_i8ctx.py:60 | padded columns contribute nothing whatever the weights hold there |
| Int8Gemm.GemmError | replace_i8ctx.py:59-72 | the scaled integer product is within the sum over the columns of abs(a) sb/2 + abs(b) sa/2 + sa sb/4 of the true dot product |
| Int8Gemm.OutputError | replace_i8ctx.py:52-75 | the same for one output's row and column, padding included, from floats to the scaled product |
| Int8Gemm.Context.Pack | replace_i8ctx.py:52-58 | the context holds the packed weights, row after row, with their scale |
| Int8Gemm.Context.Go | replace_i8ctx.py:59-75 | quantise, multiply, scale back: every output of every row whose activations are in range is within the summed column bounds of the true dot product with its column of weights |
| Int8Gemm.Dequantise | replace_i8ctx.py:68-72 | every output is its own integer product times both scales |
| CensusSweep.CountBatch | Testing/census_sweep.py:158-172 | the nested loops over a page add its models one by one to every counter |
| CensusSweep.Sweep | Testing/census_sweep.py:136-206 | nothing is written if and only if a page that is asked for cannot be fetched; otherwise the files hold exactly the models on the pages asked for, in page order, and their total is the sum of those pages' lengths |
| CensusSweep.SweepBalanced | Testing/census_sweep.py:158-172 | for each architecture the buckets of all model types sum to its count, and the model-type counts sum to the total |
| CensusSweep.SweepCounts | Testing/census_sweep.py:158-172 | each counter is the number of occurrences it is named for |
| CensusSweep.AggregateCounts | Testing/census_sweep.py:183-190 | the aggregate has exactly the model types that occur, with their counts and buckets |
| CensusSweep.IndexHoldsLast | Testing/census_sweep.py:160-162 | the index written holds the type of the last model of each name |
| CensusSweep.IndexNames | Testing/census_sweep.py:160-162 | and no other names |
| CensusSweep.FilesBalance | Testing/census_sweep.py:192-197 | the files hold the number of models, of models without architectures and of each architecture; a bucket sum equals the count unless the architecture has the name of the no-architecture key, and then only if the two numbers happen to be equal |
| CensusCoverage.FirstSuffixStripped | Testing/census_coverage.py:269-274 | the first suffix of the list that leaves something is taken off, and no second one |
| CensusCoverage.StripArchIs | Testing/census_coverage.py:269-274 | an architecture string is lower-cased and loses the first suffix, in the order of the list, that leaves something |
| CensusCoverage.MergeClasses | Testing/census_coverage.py:310-315 | each class holds the sum of the counts of the architectures stripped to it |
| CensusCoverage.Exclude | Testing/census_coverage.py:319-322 | the classes outside the denominator move over with their counts, the others stay |
| CensusCoverage.CollectTypes | Testing/census_coverage.py:416-424 | the second probe is asked about every spelling the merging loop will look up |
| CensusCoverage.SquashKeeps | Testing/census_coverage.py:423 | the second spelling drops underscores and dashes and keeps every other character in its place |
| CensusCoverage.MergeRoutes | Testing/census_coverage.py:426-446 | each registry key holds the sum of the classes routed to it, directly or through a model type, and both totals are right |
| CensusCoverage.GatherFamilies | Testing/census_coverage.py:458-465 | each family holds the sum of its keys |
| CensusCoverage.UnnamedApart | Testing/census_coverage.py:463 | tokens with a name are counted under it, and no two tokens without one share a family |
| CensusCoverage.CoverageBalances | Testing/census_coverage.py:426-480 | direct and fallback add up to what is covered, which is the families' total and at most the denominator |
| CensusCoverage.DenominatorBalances | Testing/census_coverage.py:310-322 | denominator and exclusions share out every count but that of no architecture |
| CensusCoverage.Account | Testing/census_coverage.py:307-480 | from raw counts to summary: each family, fallback class and exclusion is the sum of exactly the architecture strings that lead to it, and all totals balance |
| CensusCoverage.GroupTwice | Testing/census_coverage.py:426-465 | grouping counts in two steps is grouping them by the composed key |

## Left out

- Floating-point rounding of the reference decoders: they are over the reals, and the mask value -1e9 counts as leaving later positions out.
- RoundTowardNegative.Bf16RoundsTowardNegative: starts from the fp32 bits of the sum; the fp32 addition itself is not modelled.
- Alias.SearchesAgree: of several tests in one line each reader sees only the leftmost that its pattern matches, as the Python readers do; that the engine tries them all is not modelled.
- AliasChain.TableIsChain: reads the chain as its definition lines, one per line; comments and preprocessor lines are not told apart, by this model or by the Python readers.
- AliasChain.AliasEffect: a name holding a line break would make two lines, which is not modelled.
- TailSweep.PatchReplaces: the list of aliases is the one left after the filter on known tokens, which is not modelled; text behind the anchor on its line must not be an anchor or a return once indented on a line of its own. With both marks left above the anchor it is proved that the last block stays, not what else becomes of the text.
- TailSweep.LoneMarkAborts: for a lone start mark the anchor must end its line.
- The second file the tail sweep rewrites, the list of checks of the mapping self-check.
- AliasGuess.MaybeFile: takes the names in their sorted order; the self-check text, the review record's names and the outcome of opening a pull request are parameters.
- DraftPr.Checkout.OpenDraftPr: git, the network and `gh` are the parameter `fate`, in which a command may fail or raise with or without its effect; the clean-up's restore and switch are taken to run, and the address check is a parameter. Files other than the header count as one, as staged.
- CensusSweep.Sweep: pages and their cursors are a list, an empty page beyond its end; ids are already lower-cased and redacted, model types already extracted. The order of the aggregate's lists, retries and the replacing of files are not modelled.
- CensusCoverage.StripArch: lower case covers what ends in a to z; other letters are left as they are.
- CensusCoverage.Account: the registry probe is a total function, and the model type known for a class a map; how that evidence is gathered from several files is not modelled, nor the percentage, which divides by the denominator after the summary is written.
- Safetensors.HeaderRoundTrip: the parser accepts the writer's own layout; other JSON spellings and `\u` escapes above 127 are not modelled, nor are the other dtypes of the format.
- Gguf.GgufRoundTrip: names and texts are bytes, with no check that they are UTF-8; sizes stay below the widths of their fields.
- Iq1m.DequantKernel: the float operations are any operations, the same for both loops; one block at a time.
- GroupRouting.BothCodingsRoute: an argsort is any sorting permutation, so every tie order is covered. Expert outputs are not computed.
- TopK.RowPasses: one row; the counters of differing rows and the printing are not modelled.
- Int8Gemm.Context.Go: takes the accelerator's product as exact and the packed weights as wide as the context; overflow of its 16-bit results is not modelled.
- Recurrences.ScanHead.Scan: one head; projections, softplus, norms and gates are outside, and the mixers start from a zero state, since the surrounding loops carry state across recomputed prefixes.
- YaRN frequencies, GELU, softplus and divergence numerics have no structural property to state.
- Bodies the repository does not show (`deepseek_v4_*`, `onebp_*`, the kernels) and the test drivers around the modelled code.
