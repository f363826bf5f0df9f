# Verified models of the codecs, the device tree compiler core and the AVB image layer

This project models four components of the repository in Dafny and proves what they are for.
`dafny verify dfyconfig.toml` checks all of it.

## Reed-Solomon codec (`tools/aosp-external-fec`)

`GaloisField` is the shift register that fills the log and antilog tables and the field it defines;
`RsInit` says what the checks of `init_rs.h` establish and what they leave to the caller.
`RsCode` is the decoder over field elements, stage by stage; `RsErrors`, `RsBerlekamp`, `RsForney` and
`RsDecoder` prove that it restores every codeword with e unmarked and f marked changes, 2e + f <= nroots.
`RsUncorrectable` says what the decoder answers for any other block.
`RsEncoder` treats the generator polynomial and the encoder. `RsCodec` and `RsDecodeBlock` are the code itself:
class `Rs` is `struct rs`, and its methods work on arrays in index form, in place, like the original.
All parameters are variables. The three assumptions that the code does not check are explicit: the walk of the
register has full period, `prim` and `nn` are coprime (`RsCodec.CallerPromises`), and the encoder has at least
one root. Table generation is proved without them; `RsInit` says what the check of the walk does establish.

## Portable Viterbi decoders (`viterbi27_port.c`, `viterbi29_port.c`, `viterbi39_port.c`, `viterbi615_port.c`)

`Trellis` is the metric recursion of a convolutional code with its survivors, `TrellisProperties` the spread of
the metrics, wrap-around, and noise-free transmission. Class `ViterbiDecoder.Viterbi` is the decoder state with
its two swapped metric buffers of wrapped words and packed decisions. `TapCounts` says by counting taps which symbol
is expected; `ViterbiFrames` fixes the four codes and states its results by the inputs under the taps.
The constraint length, the polynomials, the direction of ties, the packing and the word size are parameters.
`Parity` is the parity table of `fec.c`. The branch tables, global in the original, belong to the decoder object here.
In the narrow butterfly both decisions are computed before the first one is or-ed into its word.

## Device tree compiler (`tools/dtc`)

`LiveTree` is the live tree with soft deletion as a value, `TreeMerge` the meaning of a merge for lookups,
`TreeLabels` that for labels and for the order of entries, and `LiveNode` the nodes in memory that are relinked in
place. `DtFormat` and `DtBlob` say what bytes a tree is written to and what any bytes are read as (chapter 5 of the
Devicetree Specification); `DtLayout` says the same byte by byte, without the functions that emit and read.
`DtRoundTrip`, `DtBlob` and `DtLegacy` prove the round trip for all five versions. `DtData`, `DtWriter` and
`DtReader` are the buffers, the writer and the reader. Where the original calls `die`, a read returns `None`, null
or `Fail`.

Two conditions on labels are stated for `MergeHas`: deleted entries carry no live label, and live entries below the
node merged in carry no deleted one. The parser and the deletions of the original establish both, and merging keeps the
first; `LeftLabelResurfaces` and `DeletedLabelStays` show what happens without them.

One promise fails for some names: versions 1 to 3 add a "name" property to every node without one, and the name check
takes it away again after reading. For a base name of length 0, as in "@abcd", `bin_emit_string` takes the length 0 for
"the whole string". A name of more than 3 bytes then overruns its declared length and nothing can be read
(`OverlongNameUnreadable`). With a shorter one such as "@" the tree is read, but the added value is no string, so that
`name_is_string`, the prerequisite of the check, fails and all added names stay (`BareUnitKeepsNames`).
`LegacyRoundTrip` gives the exact conditions: a tree without name properties comes back if and only if every live node
has an empty name or a nonempty base name. The check `node_name_not_empty` refuses such children, so they
reach the writer only under the option -f; a tree without name properties that passes the checks comes back.
`DtChecks` has the checks in front of the name check as predicates, in their default setting (`ProcessChecks`), and
`RunNameCheck` for the case that they are off. `DtLegacy` proves the round trips.

## AVB image layer (`tools/avb/avbtool.py`)

`HashTree` is the dm-verity tree built upside down in one buffer; the salted hash is a parameter of fixed digest
length. `SparseFormat`, `SparseLayout`, `SparseImage` and class `ImageHandler.Handler` are the image handler, proved
to act on a sparse file exactly as on the flat image it stands for. `FooterPlacement` is the placement of vbmeta and
footer.

Where code and documentation of this component differ, the model follows the code:
`round_to_multiple` is documented to return number + size, and subtracts the remainder as well.
The handler is documented to do the same on sparse and flat files. Truncating a sparse image to its present size
keeps the read position, while every other truncation resets it. A flat file of less than 28 bytes cannot be opened.

## Model

| member | source | states |
|---|---|---|
| GaloisField.StepLinear | tools/aosp-external-fec/init_rs.h:55-58 | one clock of the table-generating shift register distributes over XOR, for any field polynomial and any register contents |
| GaloisField.ExpInjective | tools/aosp-external-fec/init_rs.h:52-59 | under full period the walk visits no value twice in `nn` clocks, so no table entry is overwritten |
| GaloisField.LogExists | tools/aosp-external-fec/init_rs.h:52-59 | under full period every nonzero symbol is visited, so `index_of` is filled completely |
| GaloisField.LogExp | tools/aosp-external-fec/init_rs.h:53-54 | `index_of` undoes `alpha_to` |
| GaloisField.ExpMod | tools/aosp-external-fec/rs-common.h:20-26 | powers of alpha depend on their exponent modulo `nn` only, which justifies every reduction the codec makes |
| GaloisField.MulExp | tools/aosp-external-fec/encode_rs.h:48-54 | adding logarithms and looking up the antilogarithm is the field product |
| GaloisField.MulComm | tools/aosp-external-fec/init_rs.h:48-67 | the product that the tables define is commutative |
| GaloisField.MulAssoc | tools/aosp-external-fec/init_rs.h:48-67 | it is associative |
| GaloisField.MulDist | tools/aosp-external-fec/init_rs.h:48-67 | it distributes over XOR |
| GaloisField.MulInv | tools/aosp-external-fec/init_rs.h:48-67 | every nonzero symbol has a reciprocal, found by negating its logarithm |
| GaloisField.MulNonzero | tools/aosp-external-fec/init_rs.h:48-67 | there are no zero divisors |
| RsInit.CheckMeansPeriodDivides | tools/aosp-external-fec/init_rs.h:60-67 | the check on `sr` passes exactly when the period of the register divides `nn` |
| RsInit.ShortPeriodAccepted | tools/aosp-external-fec/init_rs.h:60-67 | symbol size 4 with polynomial 0x1f has period 5 and still passes the check |
| RsInit.PrimeSizeSuffices | tools/aosp-external-fec/init_rs.h:60-67 | when `nn` is prime the check alone establishes full period |
| RsInit.IprimSearchEnds | tools/aosp-external-fec/init_rs.h:82-85 | the search for `iprim` meets a multiple of `prim` if and only if `prim` and `nn` are coprime, and then within `prim` rounds |
| RsCodec.Rs.ModNN | tools/aosp-external-fec/rs-common.h:20-26 | the shift-and-add loop ends and returns x modulo `nn`, for every x >= 0 |
| RsCodec.Rs.GenerateTables | tools/aosp-external-fec/init_rs.h:48-67 | for any polynomial `alpha_to` ends as the walk of the register, `index_of` gives the last place of every visited symbol, and the result says whether the walk ends at 1; under full period these are the tables of the field |
| RsCodec.Rs.FindIprim | tools/aosp-external-fec/init_rs.h:82-85 | for coprime `prim` the loop ends with an inverse of `prim` modulo `nn` |
| RsCodec.Rs.MultiplyIn | tools/aosp-external-fec/init_rs.h:89-99 | one in-place multiplication by (x + root), from the top coefficient down |
| RsCodec.Rs.BuildGenerator | tools/aosp-external-fec/init_rs.h:87-103 | `genpoly` ends as the index form of the product of all x + alpha^((fcr+i)*prim) |
| RsCodec.InitRs | tools/aosp-external-fec/init_rs.h:13-67 | null exactly for parameters outside the accepted ranges or a walk that does not end at 1; otherwise a control block with valid tables, inverse and generator |
| RsEncoder.GenPolyRoots | tools/aosp-external-fec/init_rs.h:87-100 | the generator vanishes at every one of its roots |
| RsEncoder.GenPolyNonzero | tools/aosp-external-fec/init_rs.h:98-103 | no coefficient of the finished generator is zero, for all accepted parameters: the encoder adds their logarithms untested |
| RsEncoder.DivisionIdentity | tools/aosp-external-fec/encode_rs.h:37-57 | after n symbols, data(x) times x^nroots is feedbacks(x) times g(x) plus the register, at every x: the register is the remainder |
| RsEncoder.EncodeGivesCodeword | tools/aosp-external-fec/encode_rs.h:37-57 | data followed by the computed parity vanishes at every root of the generator |
| RsEncoder.ParityUnique | tools/aosp-external-fec/encode_rs.h:37-57 | any parity completes the data to a codeword if and only if it is the computed one |
| RsEncoder.EncodeDecode | tools/aosp-external-fec/decode_rs.h:81-107 | an encoded block, damaged within the radius, decodes to itself; undamaged it returns 0 and is unchanged |
| RsCodec.Rs.Clock | tools/aosp-external-fec/encode_rs.h:41-56 | one clock of the shift register in place |
| RsCodec.Rs.Encode | tools/aosp-external-fec/encode_rs.h:37-57 | the whole in-place encoder computes that parity, and data plus parity is a codeword |
| RsErrors.LocatorInjective | tools/aosp-external-fec/decode_rs.h:114-116 | different positions have different locators |
| RsErrors.SyndromesOfErrors | tools/aosp-external-fec/decode_rs.h:81-93 | the syndromes of a damaged codeword are power sums of its error weights over the locators of the damaged positions |
| RsAlgebra.Vandermonde | tools/aosp-external-fec/decode_rs.h:160-206 | weights on distinct locators are zero when as many consecutive power sums are |
| RsAlgebra.RootBound | tools/aosp-external-fec/decode_rs.h:215-247 | a polynomial with n coefficients and n distinct roots is zero |
| RsAlgebra.Deflation | tools/aosp-external-fec/decode_rs.h:275-279 | p(x) - p(z) is (x - z) times the polynomial of its Horner prefixes at z |
| RsAlgebra.ConvPowerSums | tools/aosp-external-fec/decode_rs.h:170-177 | convolving power sums with a polynomial weighs every term with the value of the polynomial at its locator |
| RsBerlekamp.ErasureLocatorRoots | tools/aosp-external-fec/decode_rs.h:109-122 | the product over the marked positions has constant term 1, degree equal to their number, and each of them as a root |
| RsBerlekamp.StepKeepsInv | tools/aosp-external-fec/decode_rs.h:169-205 | for arbitrary syndromes one step keeps: lambda[0] = 1, degree at most el, erasures <= el <= r, convolution zero at all k with el < k <= r, and nothing nonzero is shifted out of b |
| RsBerlekamp.RunKeepsInv | tools/aosp-external-fec/decode_rs.h:160-206 | hence all of that after every step of every run |
| RsBerlekamp.RunBounded | tools/aosp-external-fec/decode_rs.h:160-206 | within the correction radius the register length never exceeds erasures plus errors |
| RsBerlekamp.FinalRun | tools/aosp-external-fec/decode_rs.h:160-206 | and the final polynomial has every damaged locator as a root and exactly that degree |
| RsBerlekamp.ErasuresOnly | tools/aosp-external-fec/decode_rs.h:167-206 | with erasures only every discrepancy is zero and the erasure locator is kept |
| RsDecoder.LocationExponent | tools/aosp-external-fec/decode_rs.h:218 | the position k tested with exponent i satisfies alpha^(prim*(k+1)) = alpha^i |
| RsDecoder.LocationInjective | tools/aosp-external-fec/decode_rs.h:218 | no position is tested twice in the uncut search |
| RsDecoder.LocationSurjective | tools/aosp-external-fec/decode_rs.h:218 | and every position 0..nn-1 is tested |
| RsDecoder.ChienFindsAll | tools/aosp-external-fec/decode_rs.h:215-239 | the search, cut short at the degree, collects exactly the roots |
| RsForney.DeflatedAtRoot | tools/aosp-external-fec/decode_rs.h:275-279 | in characteristic 2 the odd terms give the deflated polynomial at its own root |
| RsForney.SimpleRoot | tools/aosp-external-fec/decode_rs.h:273-279 | the denominator is not zero: all roots are simple |
| RsForney.ErrorValueIsExact | tools/aosp-external-fec/decode_rs.h:262-289 | numerator times power over derivative is exactly the change made at that position |
| RsDecoder.ZeroSyndromes | tools/aosp-external-fec/decode_rs.h:102-108 | within the radius zero syndromes mean an undamaged codeword |
| RsDecoder.DecodeRestores | tools/aosp-external-fec/decode_rs.h:81-297 | every codeword with e unmarked changes and f distinct marked positions, 2e + f <= nroots, is restored; the result counts and reports exactly the damaged and marked positions, and is 0 for an undamaged block |
| RsDecoder.MinimumDistance | tools/aosp-external-fec/decode_rs.h:81-297 | different codewords differ in more than nroots symbols |
| RsDecodeBlock.FormSyndromes | tools/aosp-external-fec/decode_rs.h:81-93 | the nested loops leave in `s` the value of the block at each root |
| RsDecodeBlock.ToIndexForm | tools/aosp-external-fec/decode_rs.h:95-100 | converts in place and reports whether any syndrome was nonzero |
| RsDecodeBlock.MultiplyErasure | tools/aosp-external-fec/decode_rs.h:115-122 | multiplies one more marked position into `lambda` in place |
| RsDecodeBlock.FormErasureLocator | tools/aosp-external-fec/decode_rs.h:109-122 | `lambda` becomes the erasure locator polynomial |
| RsDecodeBlock.FormDiscrepancy | tools/aosp-external-fec/decode_rs.h:170-177 | the discrepancy of step r in index form |
| RsDecodeBlock.BerlekampStep | tools/aosp-external-fec/decode_rs.h:169-205 | one step updates lambda, b and el as the abstract step does |
| RsDecodeBlock.BerlekampMassey | tools/aosp-external-fec/decode_rs.h:160-206 | the loop computes the abstract run |
| RsDecodeBlock.EvaluateNext | tools/aosp-external-fec/decode_rs.h:219-225 | rotating the registers evaluates lambda at the next power of alpha |
| RsDecodeBlock.ChienSearch | tools/aosp-external-fec/decode_rs.h:215-239 | the loop stores exactly the found roots and their positions |
| RsDecodeBlock.FormOmega | tools/aosp-external-fec/decode_rs.h:248-260 | `omega` holds the low coefficients of s times lambda in index form |
| RsDecodeBlock.FormNumerator | tools/aosp-external-fec/decode_rs.h:267-271 | the evaluator at a root |
| RsDecodeBlock.FormDenominator | tools/aosp-external-fec/decode_rs.h:273-279 | the formal derivative at a root |
| RsDecodeBlock.CorrectAt | tools/aosp-external-fec/decode_rs.h:266-290 | corrects one symbol in place unless its position lies in the pad |
| RsUncorrectable.SearchAnswer | tools/aosp-external-fec/decode_rs.h:215-247 | for any locator polynomial the search finds as many roots as the degree says exactly when there are so many, and then all of them |
| RsUncorrectable.DecodeAnswer | tools/aosp-external-fec/decode_rs.h:240-297 | for any block with nonzero syndromes: the degree of the locator polynomial if that has as many roots, with changes at their locations only and all of these reported once; otherwise -1, nothing changed and nothing reported |
| RsUncorrectable.TwoErrorsUncorrectable | tools/aosp-external-fec/decode_rs.h:240-247 | two equal errors in the code over GF(8) with two roots: locator polynomial of degree 2 with one root, so the answer is -1 |
| RsDecodeBlock.DecodeRs | tools/aosp-external-fec/decode_rs.h:81-297 | the whole decoder in place: correctable blocks are restored, with count and positions; any other block gets the answer that the roots of its locator polynomial determine, -1 without any change if roots are missing |
| Parity.ParityInLowByte | tools/aosp-external-fec/fec.h:284-289 | two folds bring the parity of a 32-bit word into its low byte |
| Parity.ParityTable.PartabInit | tools/aosp-external-fec/fec.c:14-29 | the nested loops fill the table with the parity of every byte |
| Parity.ParityTable.Parity | tools/aosp-external-fec/fec.h:284-289 | the folded lookup is the parity of the word |
| Trellis.ButterflyCosts | tools/aosp-external-fec/viterbi27_port.c:117-130 | with both end taps set the four branches of a butterfly cost m, max - m, max - m, m |
| Trellis.MetricIsLowerBound | tools/aosp-external-fec/viterbi27_port.c:117-130 | no start state and input string reaches a state at less than its metric |
| Trellis.SurvivorAttains | tools/aosp-external-fec/viterbi27_port.c:117-130 | the surviving path of a state costs exactly its metric |
| Trellis.MetricOfLongerRun | tools/aosp-external-fec/viterbi27_port.c:136-191 | later groups change no earlier metric or decision |
| Trellis.TieBreak | tools/aosp-external-fec/viterbi27_port.c:122-130 | the metric is the smaller candidate; the upper predecessor survives if strictly smaller, and on a tie where the code says so |
| TrellisProperties.SpreadBound | tools/aosp-external-fec/viterbi27_port.c:117-130 | on every run states that agree above bit j have metrics within j branch costs (510, 765 or 1530 each), for frames of any length |
| TrellisProperties.FullSpread | tools/aosp-external-fec/viterbi615_port.c:112-126 | all metrics of one time lie within k - 1 branch costs |
| TrellisProperties.SignedDifference | tools/aosp-external-fec/viterbi27_port.c:122 | the signed difference of wrapped words is the true difference when that is small |
| TrellisProperties.WrappedComparison | tools/aosp-external-fec/viterbi39_port.c:118-132 | so every comparison of wrapped sums agrees with that of unbounded metrics |
| TrellisProperties.FreePathIsUnique | tools/aosp-external-fec/vtest27.c:115-131 | for noise-free symbols the transmitted path is the only one without cost |
| TrellisProperties.TailEndsAtZero | tools/aosp-external-fec/vtest27.c:116-120 | k - 1 zero bits bring the encoder to state 0 from any state |
| TrellisProperties.CleanSurvivor | tools/aosp-external-fec/vtest27.c:115-131 | for noise-free symbols the survivor is the transmitted path |
| TrellisProperties.SurvivorBits | tools/aosp-external-fec/viterbi27_port.c:86-102 | the bits of a surviving state are its latest inputs, the newest lowest |
| TrellisProperties.DecisionIsInput | tools/aosp-external-fec/viterbi27_port.c:96-102 | a decision bit read in the traceback is the input of k - 1 groups before |
| TapCounts.ExpectedByCount | tools/aosp-external-fec/viterbi27_port.c:45-53 | the symbol for register contents is 255 exactly for an odd number of ones under the taps, turned round by a negative polynomial |
| TapCounts.SymbolDistance | tools/aosp-external-fec/viterbi27_port.c:117-122 | the cost of a symbol is its distance from the expected one |
| ViterbiDecoder.Viterbi.SetPolynomials | tools/aosp-external-fec/viterbi27_port.c:45-53 | every table entry is the symbol for the number of taps that the even register meets |
| ViterbiDecoder.Viterbi.Init | tools/aosp-external-fec/viterbi27_port.c:29-43 | starts a frame: initial costs 0 or the bias, no groups yet |
| ViterbiDecoder.Viterbi.BranchMetric | tools/aosp-external-fec/viterbi27_port.c:119 | the table lookups give the cost of the even branch |
| ViterbiDecoder.Viterbi.Butterfly | tools/aosp-external-fec/viterbi29_port.c:118-131 | one butterfly sets two wrapped metrics and two decision bits of the recursion (ties to the lower predecessor) |
| ViterbiDecoder.Viterbi.WideButterfly | tools/aosp-external-fec/viterbi615_port.c:112-126 | the same with separate sums and ties to the upper predecessor |
| ViterbiDecoder.Viterbi.UpdateOne | tools/aosp-external-fec/viterbi615_port.c:141-152 | one group: the new buffer holds all wrapped metrics, the decision row all decisions, buffers swapped |
| ViterbiDecoder.Viterbi.Update | tools/aosp-external-fec/viterbi27_port.c:136-191 | a block of groups extends the run by exactly those groups |
| ViterbiDecoder.GroupedAt | tools/aosp-external-fec/viterbi27_port.c:146-149 | group t of a block is its t-th run of as many symbols as there are polynomials |
| ViterbiDecoder.Viterbi.Chainback | tools/aosp-external-fec/viterbi27_port.c:75-104 | writes the first nbits inputs of the survivor, first bit highest, bytes beyond untouched |
| ViterbiFrames.StandardCodes | tools/aosp-external-fec/fec.h:13-178 | all standard polynomials have both end taps and 32-bit metrics suffice for the four codes |
| ViterbiFrames.RegisterBits | tools/aosp-external-fec/vtest27.c:115-119 | bit i of the register is the input of i groups before |
| ViterbiFrames.SentIsClean | tools/aosp-external-fec/vtest27.c:115-121 | the register sends what the definition by inputs says: tap i of each polynomial sees the input of i groups before |
| ViterbiFrames.PathCostIsDistance | tools/aosp-external-fec/viterbi27_port.c:117-130 | the cost of a path is the distance between the symbols it sends and those received, plus the start penalty |
| ViterbiFrames.SurvivorIsOptimal | tools/aosp-external-fec/viterbi27_port.c:75-104 | maximum likelihood: the traced path ends in the given state, and no path ending there sends symbols closer to those received |
| ViterbiFrames.CleanFrame | tools/aosp-external-fec/vtest27.c:115-131 | message plus tail, sent without noise: the survivor of state 0 starts with the message |
| ViterbiFrames.DecodeFrame | tools/aosp-external-fec/vtest27.c:124-131 | init, update and chainback together return such a message bit by bit |
| TreeMerge.MergePropsAnswer | tools/dtc/livetree.c:154-188 | merging properties: the last word of the new list on a name decides, otherwise the old answer stays; names stay unique |
| TreeMerge.DeadAnswer | tools/dtc/livetree.c:326-337 | a deleted node with nothing live in it gives no property and no child |
| TreeMerge.DeletedIsWellFormed | tools/dtc/livetree.c:326-337 | deleting a node leaves nothing live in it and keeps names unique |
| TreeMerge.SaysItself | tools/dtc/livetree.c:214-216 | a subtree added as it is answers as it would after merging into nothing |
| TreeMerge.MergeKeepsWellFormed | tools/dtc/livetree.c:142-226 | merging keeps sibling names unique (deleted ones included) and deleted nodes empty |
| TreeMerge.MergeAnswer | tools/dtc/livetree.c:142-226 | for every path and property: the new tree decides where it says something, otherwise the old tree answers; delete-and-redefine at the root of the new tree included |
| TreeMerge.PathAnswers | tools/dtc/livetree.c:566-590 | following a path text, slashes and all, is following its components through live children |
| TreeMerge.MergedLookup | tools/dtc/livetree.c:142-226 | live lookup by path and property after a merge: new value, nothing where deleted or below a deletion, old value otherwise |
| TreeMerge.MergedNode | tools/dtc/livetree.c:566-590 | the same for the nodes themselves |
| TreeMerge.MergeTwice | tools/dtc/livetree.c:142-226 | merging the same tree again changes no lookup |
| TreeMerge.RepeatedNameResurfaces | tools/dtc/livetree.c:280-291 | with a repeated name a deletion lets the second entry show: unique names are needed |
| TreeMerge.DeletedContentsResurface | tools/dtc/livetree.c:148-226 | live contents of a deleted node come back when the node is defined anew: empty deleted nodes are needed |
| TreeMerge.ComponentsOfText | tools/dtc/livetree.c:566-590 | the components of a path text are the names that it was made of |
| TreeLabels.AddedLabels | tools/dtc/livetree.c:13-29 | adding labels keeps the live ones and brings all of the added ones to life, even deleted ones |
| TreeLabels.NodeLabels | tools/dtc/livetree.c:148-152 | a merged node carries the live labels of the old node and all labels of the new one |
| TreeLabels.PropertyPlace | tools/dtc/livetree.c:162-187 | a new property replaces value and adds labels at the place of the entry of its name, or goes last; all other entries stay |
| TreeLabels.MergeHas | tools/dtc/livetree.c:142-226 | for every path and property: a label is there if the new tree lists it on the entry, gone where the new tree deletes the entry or a node above, and otherwise as before |
| TreeLabels.LeftLabelResurfaces | tools/dtc/livetree.c:162-183 | a live label on a deleted property comes back with it: deletion must take labels along |
| TreeLabels.DeletedLabelStays | tools/dtc/livetree.c:186-187 | a deleted label stays deleted on a property that is added as it is |
| TreeLabels.MergedPropsOrder | tools/dtc/livetree.c:156-188 | old properties keep their places; added ones follow in the order of the new node |
| TreeLabels.MergedKidsOrder | tools/dtc/livetree.c:192-217 | the same for children |
| TreeLabels.LookupIsFirst | tools/dtc/livetree.c:478-487 | lookups give the first live entry of the name |
| TreeLabels.DeletedIsGone | tools/dtc/livetree.c:326-337 | deletion keeps every entry in its place, with its name and value, and marks whatever was live, labels included |
| TreeLabels.MergeIsMerged | tools/dtc/livetree.c:142-226 | all of this together characterises the merged tree by labels, answers and order |
| LiveNode.Node.GetProperty | tools/dtc/livetree.c:478-487 | the loop returns the first live property of the name |
| LiveNode.Node.GetNodeByPath | tools/dtc/livetree.c:566-590 | the recursive walk returns the node that the path leads to, or null |
| LiveNode.Node.Delete | tools/dtc/livetree.c:326-337 | marks the node, everything live in it and all labels in place; nothing is moved or lost |
| LiveNode.Node.TakeProperty | tools/dtc/livetree.c:162-187 | one property of the new node: deletes, replaces or is appended |
| LiveNode.Node.TakeChild | tools/dtc/livetree.c:199-216 | one child of the new node: deletes, merges or is linked in |
| LiveNode.Node.MergeNodes | tools/dtc/livetree.c:142-226 | the recursive in-place merge, relinking nodes and using no others: labels, answers to every lookup and order of entries are as they must be |
| BigEndian.CellRoundTrip | tools/dtc/flattree.c:587-596 | a 32-bit cell reads back as written |
| BigEndian.Cell64Digits | tools/dtc/data.c:187-195 | byte i of a 64-bit number is its digit 7 - i to the base 256 |
| BigEndian.Cell64ValueIs | tools/dtc/flattree.c:685-711 | eight bytes are read as the number with these digits |
| DtFormat.InsertString | tools/dtc/flattree.c:221-234 | the table only grows, and the returned offset holds the text |
| DtFormat.EmitNode | tools/dtc/flattree.c:236-292 | writing a node only appends to both blocks |
| DtRoundTrip.TextStays | tools/dtc/flattree.c:221-234 | an offset, shared suffix or not, stays valid while the table grows |
| DtRoundTrip.PropReads | tools/dtc/flattree.c:664-682 | a written property is read back from any later state of both blocks |
| DtRoundTrip.NamePropReads | tools/dtc/flattree.c:275-285 | an added name property is read back if the base name is not empty or the whole name has at most 3 bytes; otherwise an invalid tag follows it |
| DtRoundTrip.ComponentOfPath | tools/dtc/flattree.c:714-729 | old formats recover a clean child name from its full path |
| DtRoundTrip.NodeReads | tools/dtc/flattree.c:731-790 | a written node is read back, with properties, children and order, exactly when all its base names can be stored; otherwise the reader gives up |
| DtBlob.ReservesRead | tools/dtc/flattree.c:685-711 | reading reservations gives the entries up to the first of size 0 |
| DtBlob.BlobReads | tools/dtc/flattree.c:793-927 | for any version, extra slots and padding, a file that starts with a blob gives back live tree, reservations and boot processor, or nothing exactly for a deleted root or an unstorable base name |
| DtLayout.BlobIsLaid | tools/dtc/flattree.c:314-431 | every byte of header, reservations, empty slots and padding by position and digits, for every version; where structure and strings stand |
| DtLayout.NodeLayout | tools/dtc/flattree.c:236-292 | a node begins with 00 00 00 01 and its terminated, padded name and ends with 00 00 00 02 |
| DtLayout.PropLayout | tools/dtc/flattree.c:252-273 | a property is 00 00 00 03, length, name offset and padded value, in old formats aligned to 8 if long |
| DtLayout.BlockEnd | tools/dtc/flattree.c:365 | the structure block ends with 00 00 00 09 |
| DtLayout.NopsSkipped | tools/dtc/flattree.c:775-781 | words 00 00 00 04 inside a node are skipped |
| DtLayout.ReservesReadByDigits | tools/dtc/flattree.c:685-711 | the reservations read are exactly those whose digits stand there, up to one of size 0 |
| DtLayout.ReadByDigits | tools/dtc/flattree.c:793-927 | a file is read exactly if magic number, sizes and offsets, by their digits, fit and its parts can be read |
| DtChecks.CheckNameProperties | tools/dtc/checks.c:577-603 | unlinks the first name property when it repeats the base name |
| DtChecks.DataIsOneString | tools/dtc/data.c:236-252 | the loop accepts exactly a nonempty value whose only zero byte is the last |
| DtChecks.CheckIsString | tools/dtc/checks.c:207-219 | the walk finds out whether every live name property that a lookup sees is a string |
| DtChecks.CheckNodesProps | tools/dtc/checks.c:135-146 | the walk removes right name properties from every live node, in place |
| DtChecks.RunCheck | tools/dtc/checks.c:155-193 | the name check runs on the whole tree or, when one name property fails its prerequisite, on no node at all |
| DtLegacy.NamesRemoved | tools/dtc/checks.c:577-603 | wherever the name check runs, an added name property disappears again |
| DtLegacy.NamelessUnchanged | tools/dtc/checks.c:577-603 | it changes nothing in a tree without name properties |
| DtLegacy.StringsOfStored | tools/dtc/checks.c:604-605 | what an old format stores passes the prerequisite if and only if the own names do and every node without one has a proper base name |
| DtLegacy.StoredPasses | tools/dtc/checks.c:1908-1911 | the checks in front of it judge what was stored as they judge the tree itself |
| DtLegacy.AddedNamesShow | tools/dtc/flattree.c:275-285 | an added name makes a difference, also to what a check would leave: the stored tree is the live one only if every node has its own name |
| DtLegacy.CheckedStored | tools/dtc/checks.c:155-193 | checking what was stored and checking the tree itself agree if and only if no name was added, or the prerequisite (and, with all checks on, every earlier check) passes |
| DtLegacy.NamelessChecked | tools/dtc/checks.c:2060-2082 | a tree without name properties is left over exactly if and only if all base names are proper; with all checks on, if and only if it passes them and its root has a proper base name |
| DtLegacy.ModernRoundTrip | tools/dtc/flattree.c:346-431 | versions 16 and 17: reading what was written gives exactly the live tree |
| DtLegacy.LegacyRoundTrip | tools/dtc/flattree.c:346-431 | versions 1 to 3: readable if and only if all base names are storable; a tree without name properties comes back from reading and checking if and only if all base names are proper, and any tree under the exact conditions of `CheckedStored` |
| DtLegacy.OverlongNameUnreadable | tools/dtc/flattree.c:52-62 | the failing case: with a node called "@abcd" nothing can be read |
| DtLegacy.BareUnitKeepsNames | tools/dtc/checks.c:604-605 | the failing case: with a node called "@" the tree is read, but the added names stay |
| DtData.Data.GrowFor | tools/dtc/data.c:24-42 | doubling makes room and keeps the contents |
| DtData.Data.AppendData | tools/dtc/data.c:107-113 | appends to the contents |
| DtData.Data.AppendAlign | tools/dtc/data.c:221-225 | fills with zeros up to the alignment |
| DtData.Data.Merge | tools/dtc/data.c:141-156 | appends the contents of another buffer |
| DtWriter.StringtableInsert | tools/dtc/flattree.c:221-234 | the loop finds the first offset where the text already stands, or appends it |
| DtWriter.FlattenTree | tools/dtc/flattree.c:236-292 | the recursive writer appends exactly the encoding of the live tree and leaves the tree alone |
| DtWriter.FlattenReserveList | tools/dtc/flattree.c:294-312 | all reservations, address before size and highest digit first, and the extra empty slots |
| DtWriter.MakeFdtHeader | tools/dtc/flattree.c:314-344 | the header fields of the version, with block offsets and sizes |
| DtWriter.DtToBlob | tools/dtc/flattree.c:346-431 | the whole blob with every field and reservation at its place, digit by digit, or a refusal of an unknown version |
| DtReader.InBuf.FlatReadString | tools/dtc/flattree.c:607-626 | the loop reads up to the terminator and realigns, or gives up |
| DtReader.InBuf.FlatReadStringTable | tools/dtc/flattree.c:645-662 | the text at an offset of the table, or gives up |
| DtReader.InBuf.FlatReadProperty | tools/dtc/flattree.c:664-682 | a property, or gives up |
| DtReader.InBuf.FlatReadMemReserve | tools/dtc/flattree.c:685-711 | the loop collects exactly the reservations whose digits stand there, or gives up |
| DtReader.InBuf.UnflattenTree | tools/dtc/flattree.c:731-790 | builds fresh nodes for what the bytes mean, for any bytes, or gives up |
| DtReader.DtFromBlob | tools/dtc/flattree.c:793-927 | computes the reading of any file: its numbers, bounds, reservations and tree, or nothing |
| HashTree.RoundToMultiple | tools/avb/avbtool.py:246-260 | the smallest multiple of the size that is not below the number |
| HashTree.LevelsShrink | tools/avb/avbtool.py:4850-4858 | two padded digests fit into a block: every level is smaller than the one below |
| HashTree.LargeDigestsLoop | tools/avb/avbtool.py:4850-4858 | two padded digests do not fit into a block: the level above anything longer than a block is again longer |
| HashTree.TerminationCondition | tools/avb/avbtool.py:4850-4858 | the loop over the levels of a file ends if and only if the file has one block at most or two padded digests fit into a block |
| HashTree.LevelsPartition | tools/avb/avbtool.py:4860-4866 | the levels partition the tree: the top one starts at 0, each ends where the next lower one starts |
| HashTree.CalcHashLevelOffsets | tools/avb/avbtool.py:4832-4866 | whenever the first loop ends at all, the loops compute those offsets and the total size |
| HashTree.LevelHoldsDigests | tools/avb/avbtool.py:4963-4988 | entry k of a level is the digest of block k, filled up, and its padding; all bytes behind the entries are 0 |
| HashTree.HashLevel | tools/avb/avbtool.py:4963-4988 | one level: digest of every block at its place, zeros behind the last one up to whole blocks |
| HashTree.PlaceLevel | tools/avb/avbtool.py:4990-4992 | copies a level in front of the ones below without touching them |
| HashTree.TreeIsHashTree | tools/avb/avbtool.py:4950-5000 | at every offset stand the digests of the level below; the level at the front is one block, and the root is its digest |
| HashTree.GenerateHashTree | tools/avb/avbtool.py:4932-5000 | the single-buffer loop yields that tree and root; the root of a single block is its digest; an image smaller than a block has neither |
| HashTree.DigestsBind | tools/avb/avbtool.py:4963-4982 | different data of one size with equal level digests yields two blocks with one digest |
| HashTree.RootBinds | tools/avb/avbtool.py:4932-5000 | different images of one size with equal roots yield two different hashed inputs with one digest |
| HashTree.GrowingKeepsLayout | tools/avb/avbtool.py:4205-4215 | offsets computed before the image is grown to whole blocks stay right |
| SparseFormat.ParseImage | tools/avb/avbtool.py:1193-1293 | a file written from parts is accepted and parsed into their chunks: counts always match |
| SparseFormat.RaggedImage | tools/avb/avbtool.py:1230-1234 | a file that ends with a raw part of no whole number of blocks is refused |
| SparseFormat.AcceptedIsEncoded | tools/avb/avbtool.py:1193-1293 | every complete accepted file without checksum chunks is written from parts |
| SparseLayout.EncodedImage | tools/avb/avbtool.py:1079-1083 | every byte of a sparse file by position and digits: magic number, version, header sizes, counts, and of each part its kind number, length and data |
| SparseLayout.ExpandedOutputs | tools/avb/avbtool.py:1458-1485 | the image byte by byte: data of raw parts, the repeated pattern of fill parts, zeros |
| SparseImage.BisectRight | tools/avb/avbtool.py:1458-1459 | the number of chunk offsets at or below a position |
| SparseImage.ScanChunks | tools/avb/avbtool.py:1214-1273 | the loop over the chunks computes the parse of any file |
| SparseImage.ChunkAt | tools/avb/avbtool.py:1220-1273 | every chunk starts where the earlier ones end, in the file and in the image |
| SparseImage.AppendedImage | tools/avb/avbtool.py:1371-1382 | updating the counts and writing at the end gives the file of one more part |
| SparseImage.TrimImage | tools/avb/avbtool.py:1524-1561 | rewriting one chunk head, updating the counts and cutting gives the file of the shortened parts |
| ImageHandler.Handler.ReadHeader | tools/avb/avbtool.py:1174-1293 | sets every field from the file, or fails on an invalid one |
| ImageHandler.Handler.Open | tools/avb/avbtool.py:1157-1172 | opening a flat or a complete sparse file makes the fields describe it |
| ImageHandler.Handler.FileBytes | tools/avb/avbtool.py:1295-1307 | whatever was done to a sparse image: its file has exactly these bytes, and its image is the output of the parts |
| ImageHandler.Handler.Read | tools/avb/avbtool.py:1436-1485 | reads exactly the bytes of the flat image from the position on, up to its end, and moves the position |
| ImageHandler.Handler.AppendRaw | tools/avb/avbtool.py:1345-1383 | the flat image grows by the data and re-parsing succeeds; without the length check a flat file takes any length, and a sparse one given no whole number of blocks can no longer be parsed |
| ImageHandler.Handler.AppendFill | tools/avb/avbtool.py:1385-1421 | the flat image grows by the repeated pattern |
| ImageHandler.Handler.AppendDontCare | tools/avb/avbtool.py:1308-1343 | the flat image grows by zeros |
| ImageHandler.Handler.Truncate | tools/avb/avbtool.py:1495-1567 | the flat image is cut or filled up with zeros; nothing happens for sizes that are not whole blocks (sparse); a flat file cut below a header is cut, and the call fails; the position is kept only by a sparse no-op |
| FooterPlacement.FooterRoundTrip | tools/avb/avbtool.py:2405-2439 | a footer decodes to what was encoded |
| FooterPlacement.EncodedFields | tools/avb/avbtool.py:2394-2439 | magic, version, original size, vbmeta offset and vbmeta size by position, the highest digit first, and 28 zeros |
| FooterPlacement.DecodedFields | tools/avb/avbtool.py:2405-2439 | 64 bytes are a footer exactly if they have these fields |
| FooterPlacement.PlacedIsLaid | tools/avb/avbtool.py:3766-3801 | the result byte by byte: image, vbmeta where the footer says, footer fields in the last 64 bytes, zeros elsewhere |
| FooterPlacement.PlacementWorks | tools/avb/avbtool.py:3766-3801 | the result has exactly the partition size, its footer locates the vbmeta bytes, and truncating to the original size gives the original image |
| FooterPlacement.PlacementIdempotent | tools/avb/avbtool.py:3745-3758 | doing it twice equals doing it once; an image without footer is recovered |
| FooterPlacement.ReadFooter | tools/avb/avbtool.py:3747-3751 | the footer whose fields stand in the last 64 bytes, if there is one |
| FooterPlacement.StripFooter | tools/avb/avbtool.py:3745-3758 | truncates to the original size of an existing footer, on flat images whatever that size is |
| FooterPlacement.AppendVbmetaImage | tools/avb/avbtool.py:3738-3801 | the command produces that result, byte by byte, on flat and sparse images |
| FooterPlacement.FindKeptSize | tools/avb/avbtool.py:2670-2683 | the loop finds the smallest size that covers the hash tree and the error correction codes of the first descriptor that has them |
| FooterPlacement.PlacedIsErased | tools/avb/avbtool.py:2662-2689 | erasing what was placed gives the original image back, provided that the vbmeta blob parses |
| FooterPlacement.ErasedIsStripped | tools/avb/avbtool.py:2662-2663 | what erasing leaves without the hash tree is the image before the footer |
| FooterPlacement.EraseFooter | tools/avb/avbtool.py:2650-2689 | cuts to the original size, or to the end of the hash tree if that is kept; changes nothing without a footer or when what it points at does not parse |

## Left out

- RsCodec.InitRs: full period and coprime `prim` are required of the caller, because the code does not check them: without the first it goes on with entries of `index_of` that were never set, without the second it does not end.
- RsCodec.Rs.Encode: at least one root, because the code reads the first parity symbol unconditionally.
- RsDecoder.DecodeRestores: nothing is claimed outside the correction radius, where the decoder neither rechecks syndromes nor corrects in the pad.
- HashTree.CalcHashLevelOffsets: required to be called where its first loop ends; `TerminationCondition` says that it ends nowhere else.
- HashTree.GenerateHashTree: the hash is a function of fixed digest length; short or failing reads of the image are not modelled.
- ImageHandler.Handler.Read: for sparse images the position is at most the image size, and an image without chunks is read with size 0 only; beyond that the original moves the position back and can return surplus fill bytes.
- ImageHandler.Handler.Truncate: growing requires that counts and sizes fit into 32 bits; the original fails there after it has changed the header.
- ImageHandler.Handler.AppendRaw: for a sparse image, lengths fit into the 32-bit fields; for a flat file of less than four bytes, which only truncation leaves behind, the appended bytes must not complete the magic number of a sparse file.
- FooterPlacement.AppendVbmetaImage: the vbmeta blob is what the loader returned, empty or with its magic number; the partition has room for image, vbmeta and footer block; on a flat image without room the original silently cuts the vbmeta off. The restoration after exceptions is not modelled.
- FooterPlacement.EraseFooter: what the vbmeta header and its descriptors parse to, or that they do not parse, is a parameter.
- DtBlob.BlobReads: blobs are smaller than 4 GiB; header fields behind the end of a blob, which the original reads from unallocated memory, count as zero.
- DtWriter.DtToBlob: padding, minimum size and alignment options are one parameter, the number of padding bytes.
- C integer overflow in `(FCR+i)*PRIM` and in metrics before wrapping, and failure of memory allocation.
- The SIMD variants of the decoders, CPU dispatch, the fixed-parameter wrappers and the debug code of the Reed-Solomon decoder.
- Null handles of the decoders and freeing of objects; merged nodes are not freed.
- Markers of data values, source positions, parent pointers, phandles, and the flags that `dt_from_blob` derives from fixup nodes.
- The assembler emitter, source and YAML printing, the walks of the checks in front of the one on name properties (their conditions are modelled), all later checks, and `libfdt`.
- Sparse files whose last chunk is cut short are parsed, as the original does, but no operation is claimed to work on them.
- CRC32 chunks of sparse images are parsed, but images that have them are not covered: truncating one writes a wrong chunk count.
- Files on disk are byte sequences held by the handler; reading several files at once and input/output errors are not modelled.
- Key handling, signing, the formats of descriptors, FEC generation and resigning of `avbtool.py`.
- libbase, the dot product, peak and sum of squares routines, simulators and test drivers.
