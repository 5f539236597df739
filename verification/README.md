# Verified models of the video analytics sample

This project models the self-contained algorithms of a GPU video analytics sample - a multi-channel decode, detect and
track pipeline with its custom inference layers - and proves what they compute.

- **Transform planning** (`DftFactorize`, `BitrevTable`, `MixedRadix`, `DftInit`): factorisation and the index table of
  the tracker's discrete Fourier transform, proved to be mixed-radix digit reversal and its inverse.
- **Resampling** (`Resample`, `TentKernel`, `Upsample4x`, `ResampleLayer`, `NearestLayer`): the generic windowed kernel
  against a mean over the whole image, the table-driven four-lane upsampler against that kernel, and the three
  nearest-neighbour paths against each other.
- **Gradient histograms** (`HogGradients`, `HogBins`, `HogVotes`, `HogFeatures`, `HogFeatureMap`): orientation voting,
  block normalisation and reduction, with the link between signed and unsigned bins carried through all stages.
- **Suppression** (`GreedyNms`, `Boxes`, `ProposalNms`, `SimplerNms`, `Sorting`, `DetectionOutput`, `KeepTopK`,
  `ImageDetections`): three implementations of non-maximum suppression as one greedy specification with a unique
  result, and what is left of an image after suppression in all classes and the cut.
- **Frame pipe and consumers** (`PipeLists`, `FramePipe`, `PipeProtocol`, `PipeContents`, `BatchDetector`, `Scheduler`):
  linked buffer lists on the heap, all interleavings of the threads around them with what the buffers carry, and the
  round-robin scheduler in front of the double-buffered detector.
- **Layout and resource kernels** (`FrameIo`, `ReorgYolo`, `CtcGreedy`, `SurfaceAllocator`): NV12 frames, the reorg
  layer, greedy CTC decoding and the reference-counted surface allocator.

`Arithmetic` holds the non-linear facts the index calculations need, `Memory` what a read outside a buffer means,
`Pixels` rectangles as the sets of their pixels.
`dafny verify dfyconfig.toml` checks everything.

Floating-point values are reals. `sqrt`, the sector directions and the network are parameters: a square root with sign
axioms only, any compass of directions, any function from a batch of images to proposals.
Memory outside a buffer, the order of ties in a library sort, timeouts, spurious wake-ups and devices without free
surfaces are arbitrary. Threads are interleaved at their critical sections; what a critical section does to the lists is
one function, which the linked lists on the heap are proved to implement and the interleaved threads execute.

Where the code differs from its comments, or fails on some inputs, the model follows the code:

- `dpipe_get` is described as always succeeding by dropping the eldest frame (video_analytics_example/dpipe.cpp:182-184);
  it waits for a free buffer and drops frames only after the stop, and may then return nothing.
- `dpipe_stop` takes a pipe but stops all of them, and creating any pipe restarts them
  (video_analytics_example/dpipe.cpp:106, 114-117).
- `SetMode(isSync)` stores its argument as the asynchronous flag (video_analytics_example/detector.cpp:241-247). A request
  started before it is left over, and in asynchronous mode no longer fits the emptied queue.
- `LoadRawFrame` does not look at the status of the second chroma plane (common/common_utils.cpp:142-144), so a stream
  that ends inside it is reported as complete (`TruncatedAccepted`).
- The fast upsampler is selected for images of one row or column too, where it is not the kernel
  (extension/ext_resample.cpp:81-88): one column gives wrong values, one row makes blocks of rows leave the output. Two
  of each are exactly what it needs (`FastPathCondition`).
- The nearest-neighbour kernel offsets each axis by half the scale of the other (extension/ext_resample.cpp:163-164), so
  where one scale is twice the other or more, 4x4 to 8x1 for one, it reads outside the image (`CoversCondition`).
- The linear kernel has the same offset (extension/ext_resample.cpp:114-115, `CentreIsMiddle`), and antialiasing narrows it
  along an axis that grows, so that pixels may be zero for every image (`GrowingAxisMisses`).
- The reorg layer accepts channel counts its squared stride does not divide (extension/ext_reorg_yolo.cpp:50); elements are
  then copied twice (`InjectiveCondition`) and may be read behind the input (`ReadsCondition`).
- The guard on a proposal's image number lets the batch size itself through (video_analytics_example/detector.cpp:214);
  its box is stored behind the records. `BoxesLand` says when none is.
- There are six counters of finished frames (video_analytics_example/main.cpp:125, 201), indexed by channel without a check
  (video_analytics_example/main.cpp:1221), and up to 48 channels; only a display limits them
  further (video_analytics_example/main.cpp:1647-1651). All counts land exactly for up to six channels (`SixChannels`).
- The length's factorisation overflows `int` for 2^30 (`LowestBitFits`) and for primes above 46339 squared (`LastSquare`).
- The pixel weights of the histogram are linear interpolation only for even and one-pixel cells
  (video_analytics_example/fhog.cpp:135-149).
- The scheduler gives a buffer back before it reads the frame's fields (video_analytics_example/main.cpp:1190-1202), which
  may be another frame's by then (`ReadAfterPut`).
- The scheduler passes the channel as `inputid` and leaves `channelid` zero (video_analytics_example/main.cpp:1202).

## Model

| member | source | states |
|---|---|---|
| `DftFactorize.Factorize` | video_analytics_example/kcftracker.cpp:1192-1233 | terminates for every n below 2^31, stores at most 33 factors, and the list is a transform plan: n itself up to 5; otherwise product n, the largest power of two dividing n first, the rest odd primes in non-increasing order |
| `DftFactorize.SplitTwos` | video_analytics_example/kcftracker.cpp:1202-1207 | takes exactly the largest power of two out of n, and leaves an odd rest to split |
| `DftFactorize.TrialDivision` | video_analytics_example/kcftracker.cpp:1209-1226 | the loop from 3 upwards, with its early stop at the square root, ends with the complete list of odd primes in ascending order; the squares it computes fit 32 bits unless n is a prime above 46339 squared, and then the last one does not |
| `DftFactorize.Arrange` | video_analytics_example/kcftracker.cpp:1228-1230 | the parity test finds where the odd primes begin, and the swap loop puts them in descending order |
| `DftFactorize.ReverseInPlace` | video_analytics_example/kcftracker.cpp:1228-1230 | the in-place swap loop reverses exactly the part behind the power of two |
| `DftFactorize.LowestBit` | video_analytics_example/kcftracker.cpp:1202 | over unbounded integers the exclusive-or expression is the largest power of two dividing n |
| `DftFactorize.LowestBitFits` | video_analytics_example/kcftracker.cpp:1202 | in 32 bits its sum overflows for exactly one length: 2^30 |
| `DftFactorize.LastSquare` | video_analytics_example/kcftracker.cpp:1219-1220 | the square that stops the loop leaves 32 bits exactly when n is a prime above 46339 squared |
| `DftFactorize.NoSmallDivisorPrime` | video_analytics_example/kcftracker.cpp:1219-1221 | once f*f exceeds what is left, what is left is prime, so stopping there loses no factor |
| `DftFactorize.SmallestIsPrime` | video_analytics_example/kcftracker.cpp:1211-1216 | every divisor the loop accepts is prime, although it also tries odd composites |
| `DftFactorize.CountBound` | video_analytics_example/kcftracker.cpp:1271 | a product below 2^31 has at most 30 factors, so the tables of 34 entries in DFTInit suffice |
| `BitrevTable.TableReverses` | video_analytics_example/kcftracker.cpp:1128-1146 | each of the 256 literal entries is the bit reversal of its index |
| `BitrevTable.BitRevReverses` | video_analytics_example/kcftracker.cpp:1184-1188 | four look-ups reverse 32 bits, for every word and shift |
| `DftInit.Init` | video_analytics_example/kcftracker.cpp:1235-1365 | after every call the table is the mixed-radix digit reversal of each index, and with inversion its inverse permutation, including the shortcut that does not invert |
| `DftInit.ReorderingIsPermutation` | video_analytics_example/kcftracker.cpp:1280-1363 | digit reversal over any plan is a permutation of 0..n-1 with a two-sided inverse |
| `DftInit.EqualEndsPalindrome` | video_analytics_example/kcftracker.cpp:1280 | equal first and last factors force one repeated radix |
| `DftInit.InversionCanBeSkipped` | video_analytics_example/kcftracker.cpp:1280-1281 | then the reordering is its own inverse, so skipping the inversion is right |
| `DftInit.FillRadix` | video_analytics_example/kcftracker.cpp:1270-1278 | radix[k] becomes the product of factors k.., and all digits are zero |
| `DftInit.Carry` | video_analytics_example/kcftracker.cpp:1346-1350 | one increment of the odometer advances the number by one and keeps the mirrored reading; the carry never passes the last digit |
| `DftInit.CarryOver` | video_analytics_example/kcftracker.cpp:1330-1334 | one round of the carry keeps the number and adjusts the mirrored reading by two radix entries, whose index stays within nf |
| `DftInit.CarryStaysInside` | video_analytics_example/kcftracker.cpp:1330-1334 | short of the last number a full digit is never the last one |
| `DftInit.OddTable` | video_analytics_example/kcftracker.cpp:1338-1352 | the odometer loop fills the whole table for odd lengths |
| `DftInit.FirstBlock` | video_analytics_example/kcftracker.cpp:1285-1317 | the three ways of filling the first block all give bit reversal scaled by the remaining product |
| `DftInit.ByteBlock` | video_analytics_example/kcftracker.cpp:1293-1304 | one table byte, shifted, is enough for blocks of up to 256 entries |
| `DftInit.WordBlock` | video_analytics_example/kcftracker.cpp:1305-1317 | the 32-bit macro does the same for longer blocks |
| `DftInit.ShiftedLookup` | video_analytics_example/kcftracker.cpp:1295-1311 | a shifted byte look-up and the shifted macro are the same short bit reversal |
| `DftInit.QuadScaled` | video_analytics_example/kcftracker.cpp:1298-1302 | the four entries of a quad differ by the half and the quarter of the block stride |
| `DftInit.Replicate` | video_analytics_example/kcftracker.cpp:1321-1336 | copies of the first block, raised by the odometer over the odd factors, complete the table |
| `DftInit.EvenTable` | video_analytics_example/kcftracker.cpp:1283-1337 | the even branch as a whole is digit reversal |
| `DftInit.ForwardTable` | video_analytics_example/kcftracker.cpp:1268-1352 | both branches, without inversion |
| `DftInit.SmallTable` | video_analytics_example/kcftracker.cpp:1244-1267 | the hand-written tables up to length 5 are the same digit reversal |
| `DftInit.InvertTable` | video_analytics_example/kcftracker.cpp:1354-1364 | the pairwise loop writes the inverse of any permutation that fixes zero |
| `DftInit.Invert` | video_analytics_example/kcftracker.cpp:1354-1364 | hence the inverse reordering |
| `MixedRadix.ReverseInverse` | video_analytics_example/kcftracker.cpp:1268-1352 | reversal over the backward radix list undoes reversal |
| `MixedRadix.ReverseConcat` | video_analytics_example/kcftracker.cpp:1321-1336 | reversal over a concatenated radix list moves the low block up and the high block down |
| `MixedRadix.ReverseSurjective` | video_analytics_example/kcftracker.cpp:1268-1352 | every number below the product is hit |
| `MixedRadix.ReverseInjective` | video_analytics_example/kcftracker.cpp:1268-1352 | no number is hit twice |
| `MixedRadix.PalindromeInvolution` | video_analytics_example/kcftracker.cpp:1280 | reversal over a palindromic radix list is an involution |
| `MixedRadix.BitReverseSplit` | video_analytics_example/kcftracker.cpp:1184-1188 | splitting a bit pattern swaps the reversed halves |
| `MixedRadix.ThreeRadices` | video_analytics_example/kcftracker.cpp:1338-1352 | digit reversal written out: the lowest of three digits becomes the highest |
| `DftInit.TwelveSamples` | video_analytics_example/kcftracker.cpp:1283-1337 | the table for twelve samples: entry d + 2 e + 4 f is 6 d + 3 e + f |
| `DftInit.FifteenSamples` | video_analytics_example/kcftracker.cpp:1338-1352 | the table for fifteen: entry d + 5 e is 3 d + e |
| `Resample.Accumulate` | extension/ext_resample.cpp:113-144 | the two accumulation loops compute the weighted mean over the part of the window inside the image, and zero when no tap has weight |
| `ResampleLayer.InterpolationKernel` | extension/ext_resample.cpp:101-149 | every output pixel of every plane is that mean; `TentKernel` says of what |
| `Resample.RoundIs` | extension/ext_resample.cpp:117-118 | rounding to the nearest, halves away from zero |
| `TentKernel.KernelElement` | extension/ext_resample.cpp:101-149 | element by element: the weighted mean of all pixels of the plane under a tent around the output pixel's centre, one pixel wide to each side, or one output pixel when antialiasing |
| `TentKernel.KernelIsTentMean` | extension/ext_resample.cpp:113-144 | for every scale and image the windowed loops compute that mean of the whole image: no pixel under the tent is left out, and the normalisation cancels the factors of the weights |
| `TentKernel.WeightIsHeight` | extension/ext_resample.cpp:123-138 | a weight is the product of both tents, up to a factor of the window: it falls linearly with the distance along each axis |
| `TentKernel.PositiveHeight` | extension/ext_resample.cpp:134-138 | a tap weighs something exactly when it is closer than the support along both axes |
| `TentKernel.TapVisited` | extension/ext_resample.cpp:118-130 | every such tap lies within the bounds of the loops |
| `TentKernel.CentreIsMiddle` | extension/ext_resample.cpp:114-115 | the centre is the middle of the output pixel exactly if both scales are equal |
| `TentKernel.GrowingAxisMisses` | extension/ext_resample.cpp:88 | antialiasing an image that grows along one axis: four times the width and a quarter of the height make the first pixel zero for every image |
| `ResampleLayer.TriangleUpsample4x` | extension/ext_resample.cpp:264-672 | the blocked fast path writes every output pixel of every plane, with exactly the values of the generic kernel, whatever lies around the image in memory |
| `ResampleLayer.UpsamplePlane` | extension/ext_resample.cpp:364-669 | first, middle and last blocks of rows, with unsigned bounds, together cover the plane |
| `ResampleLayer.StoreColumn` | extension/ext_resample.cpp:365-413 | one column of four quads holds the kernel's pixels and touches nothing else |
| `Upsample4x.QuadIsKernel` | extension/ext_resample.cpp:381-413 | each lane of the vector the table-driven code stores is the pixel the generic kernel computes, for first, middle and last rows and all column cases |
| `Upsample4x.QuadIsBlend` | extension/ext_resample.cpp:381-413 | the table, shuffles and conditional division compute a bilinear mean with border taps left out and weights renormalised |
| `Upsample4x.KernelIsBlend` | extension/ext_resample.cpp:113-144 | so does the generic kernel at scale one quarter |
| `Upsample4x.CoefficientLanes` | extension/ext_resample.cpp:382-395 | every shuffled table entry is a product of axis weights, with exactly the border taps zeroed |
| `Upsample4x.SourceLanes` | extension/ext_resample.cpp:369-400 | which image taps reach which lane |
| `Upsample4x.FastPathCondition` | extension/ext_resample.cpp:290-672 | on images of any positive size the blocks stay inside the output and every value is the kernel's, on all images and whatever lies around them, exactly when there are two rows and two columns |
| `Upsample4x.BlocksCondition` | extension/ext_resample.cpp:296-547 | the first, middle and last blocks of rows, with their unsigned bounds, stay inside the output exactly when there are two input rows: with one, the bound of the middle loop wraps around |
| `Upsample4x.ColumnCondition` | extension/ext_resample.cpp:365-413 | with two rows or more, two columns decide |
| `Upsample4x.NarrowDisagrees` | extension/ext_resample.cpp:389-395 | a concrete one-column image on which it is wrong: the right-edge adjustment is never made there |
| `NearestLayer.ResampleNearest` | extension/ext_resample.cpp:71-79 | for all sizes all three nearest-neighbour paths write the value at the rounded source coordinates, which path runs depending only on the size ratios |
| `NearestLayer.NearestPlane` | extension/ext_resample.cpp:151-174 | the generic loop, whatever its coordinates hit in memory |
| `NearestLayer.CoversCondition` | extension/ext_resample.cpp:161-170 | all source coordinates lie inside the image exactly when neither scale is twice the other or more: each axis is offset by half the scale of the other |
| `NearestLayer.FlatOutputMisses` | extension/ext_resample.cpp:163-170 | a 4x4 image resampled to 8x1 is read at column five |
| `NearestLayer.NearestIsPixel` | extension/ext_resample.cpp:163-170 | inside, the value is the pixel of the image at the rounded coordinates |
| `NearestLayer.DoublePlane` | extension/ext_resample.cpp:176-198 | writing 2x2 blocks equals rounding the scaled coordinates at scale one half |
| `NearestLayer.QuadPlane` | extension/ext_resample.cpp:201-226 | writing four equal lanes equals it at scale one quarter |
| `NearestLayer.NearestMagnified` | extension/ext_resample.cpp:163-168 | magnified k times, output row o shows input row o / k |
| `NearestLayer.MagnifiedElement` | extension/ext_resample.cpp:151-226 | element by element for a batch magnified by any whole number: the pixel whose k by k block it is in |
| `HogGradients.FillWeights` | video_analytics_example/fhog.cpp:135-149 | the two reciprocal-normalised weights are each the other distance's share of the sum |
| `HogGradients.FillNearest` | video_analytics_example/fhog.cpp:126-133 | neighbours lie before the middle of a cell for its first half, behind it for the rest |
| `HogGradients.WeightsShareOne` | video_analytics_example/fhog.cpp:135-149 | both weights are positive and add up to one, for every cell size |
| `HogGradients.InterpolationCondition` | video_analytics_example/fhog.cpp:126-149 | the votes are linear interpolation between cell centres exactly for even cells and one-pixel cells, also if only pixels that can vote are looked at |
| `HogGradients.ChooseSector` | video_analytics_example/fhog.cpp:578-596 | the chosen signed sector has the largest score of all eighteen, and ties go to the lower direction, positive sense first |
| `HogGradients.SectorUnique` | video_analytics_example/fhog.cpp:578-596 | that determines the sector |
| `HogGradients.OppositeGradient` | video_analytics_example/fhog.cpp:578-599 | reversing a gradient keeps its unsigned bin and flips its signed one, unless it fits no sector |
| `HogGradients.StrongestChannel` | video_analytics_example/fhog.cpp:557-576 | the first channel of largest magnitude supplies the gradient |
| `HogGradients.SectorOfDirection` | video_analytics_example/fhog.cpp:578-596 | with unit vectors on different lines, a gradient along direction k gets sector k and the opposite one sector k + 9 |
| `HogGradients.MagnitudeOfDirection` | video_analytics_example/fhog.cpp:560-567 | its magnitude is its length |
| `HogBins.Orient` | video_analytics_example/fhog.cpp:553-601 | every inner pixel records its strongest gradient's magnitude and sectors |
| `HogBins.DirectionRecorded` | video_analytics_example/fhog.cpp:557-599 | a gradient along direction k is recorded with its length and k as both bins |
| `HogBins.OppositeRecorded` | video_analytics_example/fhog.cpp:557-599 | the opposite gradient with signed bin k + 9 |
| `HogVotes.Accumulate` | video_analytics_example/fhog.cpp:617-665 | every bin of the map grows by the sum, over all pixels of all whole cells, of magnitude times both distance weights |
| `HogVotes.VotePixel` | video_analytics_example/fhog.cpp:629-661 | the up to four guarded pairs of additions of a pixel amount to its interpolated vote; the border does not vote |
| `HogVotes.HistogramLinked` | video_analytics_example/fhog.cpp:617-665 | each unsigned bin equals the sum of the two signed bins of its direction, and no bin is negative |
| `HogVotes.VoteConserved` | video_analytics_example/fhog.cpp:632-660 | the four votes of a pixel add up to its magnitude |
| `HogVotes.SinglePixel` | video_analytics_example/fhog.cpp:617-665 | the histogram of a single pixel of signed sector m: magnitude times row and column weight, in bins m modulo 9 and m + 9 and nowhere else |
| `HogVotes.BorderSilent` | video_analytics_example/fhog.cpp:625-628 | a border pixel, or one outside whole cells, votes for nothing |
| `HogFeatureMap.FeatureMap.NormalizeAndTruncate` | video_analytics_example/fhog.cpp:704-803 | every cell but the rim holds, for its four blocks, each bin over the block norm, cut off at the threshold; `BlockSquares` and `BlockShared` say what the norm is |
| `HogFeatureMap.NormalizeCell` | video_analytics_example/fhog.cpp:741-785 | all 108 features of a cell, each over the norm of its own block |
| `HogFeatureMap.FeatureMap.Reduce` | video_analytics_example/fhog.cpp:828-889 | every cell holds the scaled block sums of signed bins, unsigned bins and textures, in that order |
| `HogFeatureMap.GetFeatureMaps` | video_analytics_example/fhog.cpp:374-379 | from zero, the map becomes the histogram of the image, with the link between its bins |
| `HogFeatureMap.ExtractFeatures` | video_analytics_example/fhog.cpp:89-889 | end to end: the features are the histogram of the recorded pixels, normalised and reduced; in every finished cell each unsigned feature lies between the larger of its two signed features and their sum, and all features are non-negative and bounded by the threshold |
| `HogFeatures.LinkSurvives` | video_analytics_example/fhog.cpp:704-889 | the same for any linked histogram: normalisation keeps the link inside every block, truncation and summation weaken it to that interval |
| `HogFeatures.NormalisedLinked` | video_analytics_example/fhog.cpp:754-797 | inside one block the link holds between truncated values |
| `HogFeatures.TextureReduced` | video_analytics_example/fhog.cpp:874-883 | texture features are bounded |
| `HogFeatures.BlockShared` | video_analytics_example/fhog.cpp:740-788 | a block has one norm, whichever of its four cells it is looked at from |
| `HogFeatures.BlockSquares` | video_analytics_example/fhog.cpp:719-744 | its square, less epsilon, is the sum of the squared unsigned bins of exactly these four cells |
| `HogFeatures.NormalisedCell` | video_analytics_example/fhog.cpp:740-803 | where each bin goes in each block of a normalised cell |
| `HogFeatures.ShareIs` | video_analytics_example/fhog.cpp:746-803 | a value in units of the norm, up to the threshold |
| `HogFeatures.SignedMeaning` | video_analytics_example/fhog.cpp:852-862 | from histogram to finished feature: a signed feature is the scaled sum of its bin over the four norms, each cut off |
| `HogFeatures.UnsignedMeaning` | video_analytics_example/fhog.cpp:863-872 | so is an unsigned one |
| `HogFeatures.TextureMeaning` | video_analytics_example/fhog.cpp:873-883 | a texture feature is the scaled sum of all signed bins in its block |
| `HogFeatureMap.InverseIs` | video_analytics_example/fhog.cpp:841-842 | the scale is one over the root |
| `HogFeatureMap.EntryAt` | video_analytics_example/fhog.cpp:846-848 | where a feature is in the map's buffer |
| `FramePipe.Pipe.Get` | video_analytics_example/dpipe.cpp:187-233 | one attempt unlinks the newest free buffer; asks for a retry exactly while the pipes run and none is free; after the stop unlinks the eldest stored frame, or returns nothing; both lists, tail and counts stay consistent |
| `FramePipe.Pipe.PutBuffer` | video_analytics_example/dpipe.cpp:241-250 | pushes a held buffer on the free list |
| `FramePipe.Pipe.LoadNowait` | video_analytics_example/dpipe.cpp:302-319 | unlinks the eldest stored frame, or returns nothing |
| `FramePipe.Pipe.StoreBuffer` | video_analytics_example/dpipe.cpp:328-345 | appends a held buffer at the tail |
| `FramePipe.Pipe.constructor` | video_analytics_example/dpipe.cpp:86-99 | links nframe free buffers |
| `FramePipe.PipeTable.Create` | video_analytics_example/dpipe.cpp:64-112 | refuses bad arguments and taken names and then changes nothing; otherwise registers the pipe and restarts all pipes |
| `FramePipe.PipeTable.Stop` | video_analytics_example/dpipe.cpp:114-117 | stops every pipe, whichever is named |
| `PipeProtocol.EveryBufferInOnePlace` | video_analytics_example/dpipe.cpp:187-345 | in every state reachable by any interleaving, stops and restarts included, each buffer is free, stored, or held by one thread, and in no two places |
| `PipeProtocol.LoadedIsPrefix` | video_analytics_example/dpipe.cpp:187-345 | stored frames are the departed ones, in order, followed by the output list, through stops and restarts; until the first stop everything departed was loaded |
| `PipeProtocol.NoLostWakeUp` | video_analytics_example/dpipe.cpp:264-345 | with any number of loaders, timed or not: while anybody sleeps, the stored frames are at most the signals to come plus the woken threads |
| `PipeProtocol.OneLoader` | video_analytics_example/dpipe.cpp:269-288 | with one loading thread asleep on a non-empty pipe, some store lies between its unlock and its signal |
| `PipeProtocol.GetStep` | video_analytics_example/dpipe.cpp:187-233 | a get, from the states alone: after the stop, with no free buffer, the eldest stored frame goes to the thread, leaves the list and is logged as dropped |
| `PipeProtocol.StoppedDrains` | video_analytics_example/dpipe.cpp:212-228 | once stopped, n gets take the free buffers first, then the stored frames, eldest first, all of them if n suffices, and none waits |
| `PipeProtocol.StoppedGetEnds` | video_analytics_example/dpipe.cpp:212-218 | only a running pipe makes a get wait |
| `PipeProtocol.LoadStep` | video_analytics_example/dpipe.cpp:264-288 | a load hands out the eldest frame, or its thread sleeps or gives up |
| `PipeProtocol.ResumeStep` | video_analytics_example/dpipe.cpp:280-284 | a woken thread looks again, a timed one only once |
| `PipeProtocol.SignalStep` | video_analytics_example/dpipe.cpp:343 | a signal wakes one sleeper and touches nothing else |
| `PipeContents.ArriveIntact` | video_analytics_example/dpipe.cpp:187-345 | with threads filling the buffers they hold at any time: the k-th frame that leaves is what its buffer carried at the k-th store, over every run |
| `PipeContents.StepCarries` | video_analytics_example/dpipe.cpp:187-345 | every step keeps the contents of listed frames and takes them off in order |
| `PipeContents.FillCarries` | video_analytics_example/dpipe.cpp:187-345 | filling a held buffer touches no listed one |
| `PipeContents.ReadAfterPut` | video_analytics_example/main.cpp:1190-1202 | a buffer given back and read afterwards, as the scheduler does, may carry another frame by then: the next get receives that very buffer |
| `PipeProtocol.RunKeeps` | video_analytics_example/dpipe.cpp:187-345 | every step of every run keeps all three invariants |
| `GreedyNms.GreedyIsSelection` | extension/ext_proposal.cpp:180-276 | the common specification: kept positions are increasing, pairwise unsuppressed, and every rejected one is suppressed by an earlier kept one |
| `GreedyNms.SelectionUnique` | extension/ext_proposal.cpp:180-276 | only one result has these properties |
| `GreedyNms.StoppedRun` | extension/ext_proposal.cpp:184-186 | stopping at the cutoff yields the prefix of the unlimited result |
| `GreedyNms.GreedySameTests` | extension/ext_proposal.cpp:180-276 | only the verdicts on ordered pairs matter |
| `ProposalNms.NmsCpu` | extension/ext_proposal.cpp:158-279 | forward dead-marking leaves in the output exactly the greedy selection, offset, up to the cutoff |
| `ProposalNms.MarkTail` | extension/ext_proposal.cpp:240-275 | after a box is kept, a later box is dead exactly when some kept box overlaps it |
| `ProposalNms.UnpackBoxes` | extension/ext_proposal.cpp:147-155 | interleaved records become four planes |
| `ProposalNms.RetrieveRois` | extension/ext_proposal.cpp:282-315 | kept boxes in order, then the end marker and zeros |
| `ProposalNms.ExecuteItem` | extension/ext_proposal.cpp:420-422 | the three steps together, from sorted records to region rows |
| `ProposalNms.ItemNumbers` | extension/ext_proposal.cpp:283-315 | the rows number by number: image, then the four coordinates of the kept record |
| `ProposalNms.RecordsShifted` | extension/ext_proposal.cpp:240-275 | the verdict on two records, one shifted by d columns: above (w - d) / (w + d) |
| `SimplerNms.PerformNms` | extension/ext_simplernms.cpp:145-171 | the backward any-overlap loop returns the boxes of the greedy selection among positive proposals, up to the cutoff |
| `SimplerNms.BackwardIsForward` | extension/ext_simplernms.cpp:151-168 | on a sorted list both directions keep the same positions in the same order, whatever the cutoff, if the two tests agree on every pair of positive proposals |
| `SimplerNms.BackwardIsForwardApart` | extension/ext_simplernms.cpp:36-45 | so they do on boxes that touch or are a pixel apart |
| `SimplerNms.TwoBoxes` | extension/ext_simplernms.cpp:151-168 | on two positive proposals the layers differ exactly when the tests do |
| `SimplerNms.LayersAgree` | extension/ext_simplernms.cpp:145-171 | the layers agree on all sorted lists drawn from any set of boxes exactly when their tests agree on all pairs of the set, or the cutoff is one box |
| `SimplerNms.SortAndKeep` | extension/ext_simplernms.cpp:173-187 | the best proposals in order, and nothing dropped is better |
| `SimplerNms.OrderedMeans` | extension/ext_simplernms.cpp:176-179 | their order: confidence, then the later number |
| `SimplerNms.PositivesAre` | extension/ext_simplernms.cpp:151-155 | only proposals with positive confidence take part, in their order |
| `Boxes.OverlapSymmetric` | extension/ext_proposal.cpp:253-273 | both overlap tests are symmetric |
| `Boxes.TestsAgree` | extension/ext_simplernms.cpp:157-161 | the tests of the two layers agree on a pair of well-formed boxes exactly when the boxes touch or the inclusive area of their gap is within the threshold |
| `Boxes.SimplerIsGap` | extension/ext_simplernms.cpp:157-161 | the test of the simpler layer as an inequality between inclusive widths and heights |
| `Boxes.TestsAgreeApart` | extension/ext_simplernms.cpp:36-45 | they always agree on boxes that touch or are a pixel apart |
| `Boxes.TestsDisagreeInGap` | extension/ext_proposal.cpp:253-274 | at threshold zero they agree on no other boxes: a gap below one pixel makes the tests differ |
| `Boxes.PixelTest` | extension/ext_proposal.cpp:253-273 | on integer boxes both tests compare the number of common pixels with the number of all pixels |
| `Boxes.OverlapsItself` | extension/ext_proposal.cpp:253-273 | a box overlaps itself above every threshold below 1, and no other |
| `Boxes.NestedOverlap` | extension/ext_proposal.cpp:253-273 | a box inside another one overlaps it by the ratio of their areas |
| `Boxes.ShiftedOverlap` | extension/ext_simplernms.cpp:36-45 | boxes w wide and d apart overlap by (w - d) / (w + d) |
| `DetectionOutput.Nms` | extension/ext_detectionoutput.cpp:481-519 | although it overwrites the array it was sorted from, it leaves exactly the survivors in it |
| `DetectionOutput.SurvivorsMeaning` | extension/ext_detectionoutput.cpp:496-518 | survivors are ordered by confidence then index, pairwise within the threshold, and every rejected candidate overlaps an earlier survivor above it |
| `DetectionOutput.SurvivorsUnique` | extension/ext_detectionoutput.cpp:496-518 | only one list has these properties |
| `DetectionOutput.RankedIsTop` | extension/ext_detectionoutput.cpp:338-348 | no candidate left out by top_k ranks before one taken in |
| `DetectionOutput.JaccardMeasure` | extension/ext_detectionoutput.cpp:350-385 | on boxes whose stored size is their positive area the overlap is symmetric and lies between 0 and 1 |
| `DetectionOutput.JaccardTest` | extension/ext_detectionoutput.cpp:364-384 | the early exits and the quotient compare that measure with the threshold |
| `DetectionOutput.JaccardCells` | extension/ext_detectionoutput.cpp:350-385 | on boxes between grid lines the measure is the number of common cells over the number of all cells |
| `DetectionOutput.JaccardOne` | extension/ext_detectionoutput.cpp:350-385 | it is 1 exactly for equal boxes |
| `DetectionOutput.JaccardNested` | extension/ext_detectionoutput.cpp:350-385 | for a box inside another one it is the ratio of their sizes |
| `DetectionOutput.JaccardShifted` | extension/ext_detectionoutput.cpp:350-385 | for boxes w wide and d apart it is (w - d) / (w + d) |
| `DetectionOutput.JaccardShiftedDown` | extension/ext_detectionoutput.cpp:350-385 | along the other axis too |
| `DetectionOutput.InterIsCommonPart` | extension/ext_detectionoutput.cpp:368-380 | the intersection holds exactly the points of both boxes |
| `DetectionOutput.PriorsShifted` | extension/ext_detectionoutput.cpp:354-362 | the verdict on two priors of the decoded boxes, one shifted by d |
| `DetectionOutput.RankedMeaning` | extension/ext_detectionoutput.cpp:338-348 | the ranked priors descend in confidence and ascend in index, and one is left out only for a full list |
| `Sorting.LibrarySort` | extension/ext_detectionoutput.cpp:338-348 | a list without ties has one sorted order, so any library sort gives this one |
| `KeepTopK.Cut` | extension/ext_detectionoutput.cpp:205-233 | the block fires exactly above the limit and then stores each class's part of the best entries |
| `KeepTopK.StoreBack` | extension/ext_detectionoutput.cpp:224-232 | the loop that reuses the counters as write positions puts every class's indices in list order |
| `KeepTopK.CutMeaning` | extension/ext_detectionoutput.cpp:219-221 | counts add up to the limit, each class keeps a duplicate-free part of its list in non-increasing confidence, nothing dropped is better than anything kept, however ties were sorted |
| `KeepTopK.PickPermutes` | extension/ext_detectionoutput.cpp:219-220 | rearranging the entries rearranges each class's indices |
| `KeepTopK.TotalIsLength` | extension/ext_detectionoutput.cpp:201-203 | per-class counts add up to the number of entries |
| `ImageDetections.AllInRange` | extension/ext_detectionoutput.cpp:178-219 | what suppression leaves of all classes meets what the cut needs: every stored index names a prior |
| `ImageDetections.ResultSize` | extension/ext_detectionoutput.cpp:178-233 | suppression in every class but the background, then the cut: an image gets all survivors, or exactly keep_top_k of them |
| `ImageDetections.ResultOfClass` | extension/ext_detectionoutput.cpp:178-233 | the detections of a class are distinct survivors above the confidence threshold, in order of confidence; the background has none |
| `ImageDetections.ResultIndependent` | extension/ext_detectionoutput.cpp:178-233 | none of them overlaps a preferred one above the threshold |
| `ImageDetections.DroppedIsWorse` | extension/ext_detectionoutput.cpp:205-233 | a survivor of any class that is cut off is no better than any detection of any class, however ties were sorted |
| `ImageDetections.Accounted` | extension/ext_detectionoutput.cpp:178-233 | every ranked candidate is detected, or overlaps a preferred survivor of its class, or is no better than anything detected |
| `BatchDetector.Detector.InsertImage` | video_analytics_example/detector.cpp:163-239 | for any network: refuses exactly empty images and an unloaded detector; otherwise one image goes in, and a batch comes out exactly when one is full and one is ready, with the status telling whether a proposal was read, leaving the caller's results alone otherwise |
| `BatchDetector.Detector.CompleteBatch` | video_analytics_example/detector.cpp:188-237 | starting, waiting, popping and swapping keep both requests paired with their batches |
| `BatchDetector.RunDelivers` | video_analytics_example/detector.cpp:163-237 | over every run the k-th delivery answers the k-th batch of n consecutive images, one batch late in asynchronous mode, and the queue holds the started batch plus the one being filled |
| `BatchDetector.RunInserted` | video_analytics_example/detector.cpp:163-187 | a run inserts its images, all of them, in order |
| `BatchDetector.CompleteFit` | video_analytics_example/detector.cpp:190-236 | the request waited for still holds the images it was started on |
| `BatchDetector.ReadBoxes` | video_analytics_example/detector.cpp:194-233 | each record gets exactly the leading proposals that name its image, scaled and clipped, in order, whatever the network puts out |
| `BatchDetector.BoxOf` | video_analytics_example/detector.cpp:218-229 | which side comes from which field: a side is its field times the image's columns or rows without the fraction, clipped to the first pixel on the left and above and to the last on the right and below |
| `BatchDetector.InsideSides` | video_analytics_example/detector.cpp:220-225 | for coordinates in [0, 1) each side is within one pixel below its field times the size |
| `BatchDetector.RecordedBox` | video_analytics_example/detector.cpp:212-230 | a read proposal for image i is in record i, behind the boxes of the earlier ones, and nothing else is |
| `BatchDetector.ProposalsEnd` | video_analytics_example/detector.cpp:213-217 | reading stops exactly at the first row with a negative image number, one above the batch, or no confidence |
| `BatchDetector.Quarters` | video_analytics_example/detector.cpp:220-229 | one row on a hundred by hundred image |
| `BatchDetector.BoxesLand` | video_analytics_example/detector.cpp:212-230 | the records hold as many boxes as proposals were read exactly when no proposal before the terminator names the batch size itself |
| `BatchDetector.BatchSizeSlips` | video_analytics_example/detector.cpp:214 | one proposal that does, in a batch of two: it is read, and neither record gets it |
| `BatchDetector.FoundMeansBox` | video_analytics_example/detector.cpp:212-233 | without such a proposal some record has a box exactly when the status says so |
| `BatchDetector.Detector.SetMode` | video_analytics_example/detector.cpp:241-248 | empties the queue at any time and stores the parameter as the asynchronous flag; requests and queue still belong together unless the detector becomes asynchronous with a started request left over |
| `Scheduler.ScheduleThread.Sweep` | video_analytics_example/main.cpp:1160-1252 | one sweep takes one frame of every channel in order, into the detector, and levels all channels; each of the six counters holds its channel's finished frames, and the increments behind them are tallied |
| `Scheduler.ScheduleThread.Serve` | video_analytics_example/main.cpp:1164-1251 | one turn; whatever comes out is counted for the channel it came from, if that has a counter |
| `Scheduler.TurnIsStored` | video_analytics_example/main.cpp:1164-1202 | with pipes in any reachable states, turn j inserts the frame its channel stored in round j / channels |
| `Scheduler.TakenAreFair` | video_analytics_example/main.cpp:1164-1171 | frames taken from two channels never differ by more than one, and not at all after a sweep |
| `Scheduler.ResultsAreFair` | video_analytics_example/main.cpp:1220-1230 | neither do the finished frames delivered for two channels |
| `Scheduler.CountsLand` | video_analytics_example/main.cpp:1220-1222 | after any number of turns all counts so far landed in the six counters exactly if there are six channels at most, or six results at most |
| `Scheduler.SixChannels` | video_analytics_example/main.cpp:201 | over all runs they land exactly for up to six channels |
| `Scheduler.SevenChannels` | video_analytics_example/main.cpp:1221 | seven channels: the seventh result is counted behind the counters |
| `Scheduler.DeliveryAnswers` | video_analytics_example/main.cpp:1202-1206 | the k-th delivery answers turns k n to k n + n - 1 of the round robin |
| `Scheduler.FairShare` | video_analytics_example/main.cpp:1164-1171 | the exact number of turns of each channel after any number of turns |
| `FrameIo.LoadRawFrame` | common/common_utils.cpp:94-147 | the exact status for every stream length; a complete frame ends up in the window, of a second chroma plane that ends early the complete rows, and nothing else ever changes |
| `FrameIo.ReadPlaneData` | common/common_utils.cpp:80-92 | one chroma plane into every other byte; a short stream stores exactly its complete rows and fails |
| `FrameIo.WriteRawFrame` | common/common_utils.cpp:224-250 | appends the luminance rows and both chroma planes of the window |
| `FrameIo.WriteRawFrameToMemory` | video_analytics_example/main.cpp:2420-2439 | writes the very same bytes to memory, and nothing behind them |
| `FrameIo.RoundTrip` | common/common_utils.cpp:94-250 | a frame that is in the window is written back byte for byte |
| `FrameIo.TightFits` | common/common_utils.cpp:94-250 | every window fits planes that end with its last pixel |
| `FrameIo.RoundTripCondition` | common/common_utils.cpp:94-250 | every frame is loaded without complaint through a window, into planes of any size that holds it, and comes back byte for byte, exactly when half the width is at most 2048 and there is no chroma row or width and vertical offset are even |
| `FrameIo.WideRefused` | common/common_utils.cpp:129-130 | a wider window is refused whatever the stream |
| `FrameIo.FiveThousandRefused` | common/common_utils.cpp:129-130 | five thousand columns, for one |
| `FrameIo.TruncatedAccepted` | common/common_utils.cpp:142-144 | a stream that ends inside the second chroma plane, and no other incomplete one, is reported as complete |
| `FrameIo.FiveOfSix` | common/common_utils.cpp:142-144 | five bytes of a two by two picture: no error, and the last byte is what it was before |
| `FrameIo.OddOffsetMisses` | common/common_utils.cpp:133-218 | with an odd offset loader and writers disagree about where chroma starts |
| `FrameIo.OddWidthGrows` | common/common_utils.cpp:236-247 | with an odd width more bytes are written than were read |
| `FrameIo.LoadedPixel` | common/common_utils.cpp:107-142 | where every byte of a frame is after loading: row CropY + i, column CropX + j, and both chroma samples in row CropY / 2 + i |
| `FrameIo.WrittenPixel` | common/common_utils.cpp:213-234 | where every byte of the written luminance comes from |
| `FrameIo.WrittenSample` | common/common_utils.cpp:213-247 | where every written chroma byte comes from, for any width and offset |
| `FrameIo.EmptyWindow` | common/common_utils.cpp:107-113 | a window without rows or columns means the whole picture's size |
| `ReorgYolo.Execute` | extension/ext_reorg_yolo.cpp:50-71 | for every shape each output element is what memory holds at its mapped source |
| `ReorgYolo.ReadsCondition` | extension/ext_reorg_yolo.cpp:57-67 | the reads stay inside the input exactly when there are fewer surplus channels than groups have, or these make enough room for what they read |
| `ReorgYolo.SevenChannelsMiss` | extension/ext_reorg_yolo.cpp:57-67 | seven channels of one row of two at stride two read behind the last of their fourteen elements |
| `ReorgYolo.Bijection` | extension/ext_reorg_yolo.cpp:57-65 | when the squared stride divides the channels the mapping is a bijection with an explicit inverse |
| `ReorgYolo.InjectiveCondition` | extension/ext_reorg_yolo.cpp:50-65 | no element is copied twice exactly then, but for the shape with a single group, row and image |
| `ReorgYolo.Collision` | extension/ext_reorg_yolo.cpp:59-65 | otherwise two output elements share a source |
| `ReorgYolo.Recovered` | extension/ext_reorg_yolo.cpp:67 | reading the output through the inverse mapping gives back the input |
| `ReorgYolo.SpaceToDepth` | extension/ext_reorg_yolo.cpp:50-67 | which rearrangement it is: row py and column px of a tile become channel (py stride + px) off + c of one pixel |
| `CtcGreedy.Execute` | extension/ext_ctc_greedy.cpp:61-96 | every item's slots hold the blank-free collapse of its best path up to the first zero indicator, then -1; `PathMeaning` and `LengthIs` say which values these are |
| `CtcGreedy.DecodeItem` | extension/ext_ctc_greedy.cpp:67-95 | one item, without touching the others |
| `CtcGreedy.LengthMeaning` | extension/ext_ctc_greedy.cpp:92-94 | which steps are decoded |
| `CtcGreedy.FirstMaxMeaning` | extension/ext_ctc_greedy.cpp:70-83 | the first maximum wins |
| `CtcGreedy.PathMeaning` | extension/ext_ctc_greedy.cpp:70-83 | entry t of the path of item n is the first class c with the largest value at t N C + n C + c |
| `CtcGreedy.PeakedPath` | extension/ext_ctc_greedy.cpp:70-83 | probabilities with their only maxima along a path have that path |
| `CtcGreedy.SpellingRead` | extension/ext_ctc_greedy.cpp:61-96 | end to end: probabilities that spell labels are decoded to these labels, step after step |
| `CtcGreedy.LengthIs` | extension/ext_ctc_greedy.cpp:92-94 | the first l steps are decoded if behind the first step only the indicator after them is zero |
| `CtcGreedy.SpelledBack` | extension/ext_ctc_greedy.cpp:85-90 | any label sequence, repeats included, is decoded from its spelling with blanks |
| `CtcGreedy.HeldStep` | extension/ext_ctc_greedy.cpp:85-90 | holding a class for another step changes nothing |
| `SurfaceAllocator.Allocator.Alloc` | common/common_directx.cpp:265-298 | system memory is refused; an owner's further requests that are both external and from decode share its array, everything else gets a new one, which is on the decode books only with both flags |
| `SurfaceAllocator.Allocator.FreeResponse` | common/common_directx.cpp:398-416 | frees one outstanding response and releases the array exactly with the last one |
| `SurfaceAllocator.OwnersShare` | common/common_directx.cpp:272-291 | an owner's reference count is its number of outstanding decode responses, and they all stand for one array |
| `SurfaceAllocator.ReleasedAtLastFree` | common/common_directx.cpp:381-416 | every array has been released exactly once if no response stands for it any more, and not at all before |
| `SurfaceAllocator.FreeKeeps` | common/common_directx.cpp:402-413 | freeing any outstanding response keeps the books consistent |

## Left out

- DftFactorize.Factorize: integers are unbounded here; what a compiled program does once `((n - 1)^n) + 1` or `f*f` has overflowed `int` is undefined and not modelled. Which lengths those are is proved (`LowestBitFits`, `LastSquare`).
- DftFactorize.LowestBit: over unbounded integers, as above.
- The wave and twiddle part of `DFTInit`, the Gaussian peak, the Hann window, and the detect and train steps: numerics on transcendental values.
- The AVX2 paths of the upsamplers and of `nms_cpu`: the four-lane and scalar forms are modelled.
- Floating-point rounding, overflow and NaN; comparisons with a quotient whose denominator is zero are modelled as the hardware decides them.
- Upsample4x.FastPathCondition: heights below 2^62 rows, so that the output height is a `size_t`; where a block of a one-row image leaves the output, what it overwrites there is not modelled.
- FrameIo.RoundTripCondition: for windows of positive size only; an empty window makes the loader fill the whole picture while the writers produce nothing.
- A missing input file, for which `LoadRawFrame` pretends to deliver a thousand frames, and short writes to the output file.
- NV12 planes are separate arrays here; their adjacency in one surface is not modelled.
- HogBins.Orient: gradients are given; the convolution that produces them and the debugging dumps are not part of this model.
- Box decoding with `exp`, proposal enumeration, prior boxes and the order in which results are written to the output blob.
- Library sorts and partial sorts are modelled by their result; where ties are possible the order is an arbitrary parameter.
- KeepTopK.Cut: the slices of one image are a two-dimensional array of their own, so neighbouring images are not in it.
- ProposalNms.NmsCpu: a cutoff of zero or less never stops the loop, as in the code; the output must then be long enough for all boxes.
- Pipe destruction, allocation failures inside `dpipe_create`, and creation or stopping from several threads at once; the condition variable `cond_input` is signalled but nobody waits on it.
- The scheduler reads a frame's fields after it has returned the buffer to the pipe; the model reads them before (`PipeContents.ReadAfterPut` says what may come of it).
- The waits inside `SetMode`, runs in asynchronous mode after it left a started request over, reloading a network, and the preprocessing of floating-point inputs.
- BatchDetector.ReadBoxes: what a box for image number n of n overwrites behind the records, and the image size it is scaled with, are not modelled; no record gets it.
- Scheduler.ScheduleThread.Serve: likewise, what the increment of a counter that does not exist changes in memory.
- `total_frame`, which the statistics thread resets at any time (video_analytics_example/main.cpp:245, 260), and the other figures it prints.
- Scheduler.TurnIsStored: for frames that have left their pipes; that a load blocks until there is one is not tied to the sweeps, which take the feed as given.
- The cut over all classes is composed with suppression on lists; the copies of indices between the buffers of the layer's classes are in `Nms` and `Cut` alone.
- The scheduler build with workload balance, display and tracking threads, semaphores that wake the scheduler, and the stop flag between sweeps.
- CtcGreedy.Execute: both inputs are required; the code also accepts a single input and then reads the missing second one. At least one step and one class are required.
- ReorgYolo.Execute: at least one channel per squared stride is required, without which the code divides by zero, and positive dimensions; empty shapes, which copy nothing, are left out.
- The frame allocator's device calls, lock and unlock; a response is freed once and decode responses by their owner. Addresses of released arrays are never reused here.
- The VAAPI allocator, the RGB branches of the frame functions, bitstreams and encoders.
- Decoder, media SDK, GPU kernel, inference engine and OpenCV calls, command-line handling and display: foreign code or plumbing.
- PReLU, GRN, MVN, normalisation, power file and rectangle helpers: elementwise or single-branch facts that would only add easy members.
