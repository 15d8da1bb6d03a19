# dlfx core, modelled in Dafny

This project models the three pieces of pure logic in the `dlfx` / `dlutils` sources:

- **`convert_to_8bit_3channel`** (`src/dlutils/MedSigLip/preprocess.py`). It turns a decoded image array into an 8-bit, three-channel array. Each channel is stretched from its own minimum and maximum onto 0..255 and truncated. A constant channel becomes zeros. A grayscale or single-channel image is replicated into three identical channels, and a three-channel image keeps its channel order. Any other number of dimensions raises `ValueError`. A 3-D array whose channel count is neither 1 nor 3 reaches the final line with `rgb_array` unbound. Module `Preprocess`, file `preprocess.dfy`.
- **`compute_accuracy`**, and the index partition and mistake tally of **`analyze_errors`** (`src/dlutils/MedGemma/compute_accuracy.py`). Here `-1` marks an invalid prediction. Module `Accuracy`, file `accuracy.dfy`.
- **`flatten_dicom_dataset`** and **`extract_index`** (`src/dlfx/dicom.py`). The first is a recursive walk of a DICOM dataset and its SQ sequences into a dictionary keyed `Seq[i].Child`. The walk skips Pixel Data. The second is the leftmost-match parser for `[digits]`. Module `Dicom`, file `dicom.dfy`.

`results.dfy` holds the `Option` and `Result` datatypes shared by the three modules.

Pixels are integers. For integer images, `((p - min) * 255.0 / (max - min)).astype(np.uint8)` equals the exact floor `(p - min) * 255 / (max - min)`, because the operand is never negative, as long as max - min is below 2^45 and pixel values are below 2^53. Every integer image mode PIL produces (at most 32 bits per pixel) is far inside that range. Beyond it, the float64 quotient can round up to the next integer: with min 0 and max 2^50, the pixel 282578800148737 has exact floor 63 while the float formula gives 64. Within the range, that floor is Dafny's `/`.

The model follows the code's truncation. The grayscale example `[[0, 50], [100, 200]]` therefore becomes `[[0, 63], [127, 255]]`, since the code truncates: 63.75 and 127.5 become 63 and 127.

Errors the Python raises are modelled as values:

- `UnsupportedDimensions(ndim)` is the explicit `ValueError`.
- `RgbArrayUnbound` is the `UnboundLocalError` for a channel count other than 1 or 3.
- `ReferenceIndexError` is the `IndexError` `compute_accuracy` raises when a valid prediction's index lies beyond `references`.

## Model

| member | source | states |
|---|---|---|
| `Preprocess.Convert` | src/dlutils/MedSigLip/preprocess.py:15-56 | The conversion fails exactly when ndim is not 2 or 3, or when a 3-D array has a channel count other than 1 and 3. The first case is `UnsupportedDimensions(ndim)`; the second is the unbound-`rgb_array` failure. On success the result is H x W x 3 and every value is a byte. |
| `Preprocess.PlaneMin` | src/dlutils/MedSigLip/preprocess.py:20 | `.min()`: the result occurs in the plane and no pixel is below it. |
| `Preprocess.PlaneMax` | src/dlutils/MedSigLip/preprocess.py:21 | `.max()`: the result occurs in the plane and no pixel is above it. |
| `Preprocess.Rescale` | src/dlutils/MedSigLip/preprocess.py:24 | The rescaled pixel is a byte, and it is the floor of (v - lo) * 255 / (hi - lo): r * (hi - lo) <= (v - lo) * 255 < (r + 1) * (hi - lo). |
| `Preprocess.RescaleEndpoints` | src/dlutils/MedSigLip/preprocess.py:24 | The channel minimum maps to 0 and the channel maximum maps to 255. |
| `Preprocess.RescaleMonotone` | src/dlutils/MedSigLip/preprocess.py:24 | Within one range, v <= u implies rescale(v) <= rescale(u). |
| `Preprocess.RescaleFullRange` | src/dlutils/MedSigLip/preprocess.py:24 | On the range [0, 255] the rescale is the identity. |
| `Preprocess.NormalizePlane` | src/dlutils/MedSigLip/preprocess.py:20-26 | Normalising one channel keeps its H x W shape, and every output value is a byte. |
| `Preprocess.NormalizedPixelIsFloor` | src/dlutils/MedSigLip/preprocess.py:20-24 | Take a channel whose least value lo is below its greatest value hi. Every output pixel v is a byte with v * (hi - lo) <= (p - lo) * 255 < (v + 1) * (hi - lo). |
| `Preprocess.NormalizeStretches` | src/dlutils/MedSigLip/preprocess.py:20-24 | In a non-constant channel, every pixel equal to the minimum becomes 0 and every pixel equal to the maximum becomes 255. The output's least value is 0 and its greatest is 255. |
| `Preprocess.NormalizeZeroIffConstant` | src/dlutils/MedSigLip/preprocess.py:23-26 | A normalised channel is all zeros exactly when the input channel is constant. |
| `Preprocess.NormalizeMonotone` | src/dlutils/MedSigLip/preprocess.py:20-26 | Inside one channel, p <= q implies out(p) <= out(q). |
| `Preprocess.NormalizeFixesFullRange` | src/dlutils/MedSigLip/preprocess.py:20-24 | A byte channel whose least value is 0 and greatest is 255 comes back unchanged. |
| `Preprocess.NormalizeIdempotent` | src/dlutils/MedSigLip/preprocess.py:20-26 | Normalising an already normalised channel changes nothing. |
| `Preprocess.ChannelOfStack` | src/dlutils/MedSigLip/preprocess.py:48-50 | Taking channel k of a stack gives back plane k. |
| `Preprocess.NormalizeChannels` | src/dlutils/MedSigLip/preprocess.py:33-44 | The per-channel loop yields one normalised H x W byte plane per input channel. |
| `Preprocess.ConvertGrayReplicates` | src/dlutils/MedSigLip/preprocess.py:18-29 | A 2-D image is accepted. Each of the three output channels is the normalised plane, so the three values of every output pixel are equal. |
| `Preprocess.ConvertSingleChannelReplicates` | src/dlutils/MedSigLip/preprocess.py:31-48 | A 3-D image with one channel is accepted, and all three output channels are that channel normalised. |
| `Preprocess.ConvertKeepsChannelOrder` | src/dlutils/MedSigLip/preprocess.py:31-50 | A 3-D image with three channels is accepted, and output channel k is input channel k normalised. |
| `Preprocess.ConvertChannelsIndependent` | src/dlutils/MedSigLip/preprocess.py:33-44 | Two three-channel images that agree on channel k give the same output channel k, whatever their other channels hold. |
| `Preprocess.ConvertGrayAsSingleChannel` | src/dlutils/MedSigLip/preprocess.py:18-48 | A 2-D image converts exactly as the same image with a channel axis of size 1 added. |
| `Preprocess.OutputChannel` | src/dlutils/MedSigLip/preprocess.py:18-50 | Every output channel of a successful conversion is the normalisation of the source plane it is taken from. |
| `Preprocess.ConvertIdempotent` | src/dlutils/MedSigLip/preprocess.py:4-56 | A converted image is a valid three-channel input, and converting it again gives the same image. |
| `Preprocess.GrayscaleExample` | src/dlutils/MedSigLip/preprocess.py:20-24 | The plane [[0, 50], [100, 200]] normalises to [[0, 63], [127, 255]]. |
| `Preprocess.ConstantExample` | src/dlutils/MedSigLip/preprocess.py:25-26 | The constant plane [[7, 7], [7, 7]] normalises to zeros. |
| `Accuracy.ComputeAccuracy` | src/dlutils/MedGemma/compute_accuracy.py:96-120 | The call fails exactly when some valid index has no reference. On success: total is the number of predictions, valid is the number of indices with pred != -1, and correct is the number of valid indices with pred == ref. Also 0 <= correct <= valid <= total. With no valid predictions the accuracy is 0.0 and correct is 0. Otherwise accuracy is correct / valid, which lies in [0, 1]. |
| `Accuracy.ValidFrom` | src/dlutils/MedGemma/compute_accuracy.py:99 | The valid-index list is strictly increasing and holds exactly the indices whose prediction is not -1. |
| `Accuracy.ValidIndicesCount` | src/dlutils/MedGemma/compute_accuracy.py:99 | The valid-index list has as many entries as there are valid indices. |
| `Accuracy.MissingReference` | src/dlutils/MedGemma/compute_accuracy.py:110 | Indexing `references` fails (the last valid index is too large) exactly when some valid index lies beyond the references. |
| `Accuracy.CountGathered` | src/dlutils/MedGemma/compute_accuracy.py:112 | Counting equal pairs of the gathered lists counts the indices where prediction and reference agree. |
| `Accuracy.CorrectCount` | src/dlutils/MedGemma/compute_accuracy.py:109-112 | Over the valid indices, the count of matching pairs is the number of valid indices with pred == ref. |
| `Accuracy.CorrectWithinValid` | src/dlutils/MedGemma/compute_accuracy.py:112 | Every correct index is valid, so correct <= valid. |
| `Accuracy.SplitPrefix` | src/dlutils/MedGemma/compute_accuracy.py:25-35 | After n loop steps the three lists are strictly increasing and below n. An index lands in invalid iff pred == -1, in correct iff pred != -1 and pred == ref, and in incorrect otherwise. Together the lists hold n entries. |
| `Accuracy.SplitIsPartition` | src/dlutils/MedGemma/compute_accuracy.py:25-35 | The invalid, correct and incorrect lists are pairwise disjoint. Their union is exactly 0 .. min(len(predictions), len(references)) - 1. |
| `Accuracy.Tally` | src/dlutils/MedGemma/compute_accuracy.py:44-51 | The counting dictionary holds exactly the keys seen, and each count is the key's number of occurrences. |
| `Accuracy.TallySum` | src/dlutils/MedGemma/compute_accuracy.py:47-51 | The counts of the dictionary add up to the number of mistakes tallied. |
| `Accuracy.ShownKeys` | src/dlutils/MedGemma/compute_accuracy.py:47-50 | The keys of the shown mistakes are exactly the pairs (refs[i], preds[i]) for the shown indices i. None of them has the "Invalid" label, and in none is the predicted class equal to the reference. |
| `Accuracy.AnalyzeErrors` | src/dlutils/MedGemma/compute_accuracy.py:25-51 | The three lists partition the zipped indices as the loop decides. Every mistake key has a real predicted class different from its reference, so the "Invalid" branch is unreachable. The keys are exactly the pairs of the first `max_mistakes` incorrect indices. The counts sum to that slice's length, which is min(max_mistakes, len(incorrect)) for a non-negative `max_mistakes`. |
| `Accuracy.AccuracyAgreesWithSplit` | src/dlutils/MedGemma/compute_accuracy.py:29-112 | With equally long lists, `compute_accuracy` succeeds. Its valid count is len(correct) + len(incorrect), its correct count is len(correct), and total - valid is len(invalid). |
| `Dicom.Apply` | src/dlfx/dicom.py:29 | Performing the writes in order on a dictionary: a key is present iff it was present or written. It keeps its old value when never written, and holds the value of its last write otherwise. |
| `Dicom.Flatten` | src/dlfx/dicom.py:6-32 | The flattened dictionary's keys are exactly the keys written during the walk, and each holds the value of its last write. |
| `Dicom.FlattenSingleValue` | src/dlfx/dicom.py:16-29 | A dataset with one plain element flattens to a single entry. Its key is the keyword, or `str(tag)` when the keyword is empty. |
| `Dicom.FlattenLaterDuplicateWins` | src/dlfx/dicom.py:28-29 | Two plain elements with the same name flatten to one entry holding the later value. |
| `Dicom.ValueElementKey` | src/dlfx/dicom.py:16-29 | A plain element other than Pixel Data writes exactly one key, prefix + keyword, or prefix + `str(tag)` when the keyword is empty. |
| `Dicom.SequenceElementKeys` | src/dlfx/dicom.py:22-26 | A sequence element writes no key of its own. Every key it yields comes from some item i walked with prefix `key[i].`, it starts with that prefix, and it is longer than the element's own key. |
| `Dicom.ItemWritesMembers` | src/dlfx/dicom.py:25-26 | The writes of the item loop are exactly the writes of the items, each walked under its own `key[i].` prefix. |
| `Dicom.DatasetKeysHavePrefix` | src/dlfx/dicom.py:10-29 | Every key written while walking under a prefix starts with that prefix. |
| `Dicom.EmptySequenceAddsNothing` | src/dlfx/dicom.py:25-26 | Inserting an empty sequence element anywhere in a dataset leaves the flattened dictionary unchanged. |
| `Dicom.StripKeepsWrites` | src/dlfx/dicom.py:13-14 | Removing every Pixel Data element, at every nesting depth, leaves the walk's writes unchanged, and what remains holds no Pixel Data. |
| `Dicom.TagText` | src/dlfx/dicom.py:20 | The rendered tag contains no bracket. |
| `Dicom.NatText` | src/dlfx/dicom.py:26 | The rendered item index is a non-empty run of digits without a leading zero. |
| `Dicom.NatTextRoundTrip` | src/dlfx/dicom.py:26 | Reading back the digits of a rendered index gives the index. |
| `Dicom.DigitRunEnd` | src/dlfx/dicom.py:37 | The run of digits from a position ends at the end of the string or at a non-digit. |
| `Dicom.MatchEndIsRunEnd` | src/dlfx/dicom.py:37 | A `[digits]` match that opens at position i closes exactly where the run of digits after i ends. |
| `Dicom.SearchFrom` | src/dlfx/dicom.py:40 | Scanning from position i finds nothing iff no `[digits]` opens at or after i. Otherwise it yields the value of the digits of the leftmost match. |
| `Dicom.ExtractIndex` | src/dlfx/dicom.py:35-47 | The result is None iff the string has no `[` + digits + `]`. Otherwise it is the integer value of the digits in the leftmost such occurrence. |
| `Dicom.ExtractIndexLeadingZeros` | src/dlfx/dicom.py:44 | `Seq[007].X` gives 7: leading zeros are part of the number. |
| `Dicom.ExtractIndexFirstMatch` | src/dlfx/dicom.py:40-44 | `A[12].B[3].C` gives 12: only the leftmost match counts. |
| `Dicom.ExtractIndexNoMatch` | src/dlfx/dicom.py:46-47 | `[]`, `[a1]` and `PatientName` give None. |
| `Dicom.ExtractIndexAfterHead` | src/dlfx/dicom.py:26-44 | After a bracket-free head, `head[i]rest` gives i. |
| `Dicom.ItemKeyShape` | src/dlfx/dicom.py:25-26 | A key written inside item i of the sequence named `key` has the form `key[i].` followed by the rest of the path. |
| `Dicom.ExtractOuterIndex` | src/dlfx/dicom.py:10-44 | Take a top-level sequence element whose name has no bracket. Every key it yields starts with `name[i].` for some item index i, and `extract_index` of that key is i. |

## Left out

- Image decoding and encoding (`np.array(pil_image)` and `Image.fromarray`, lines 15 and 56 of `preprocess.py`) are not modelled. The model takes the decoded array, distinguished by its rank, and returns the output array.
- Floating-point source images and the floating-point arithmetic itself are left out. Pixels are integers and the rescale is exact floor division, which is what the float formula and the `uint8` cast compute for integer inputs while max - min is below 2^45 and pixel values are below 2^53 (true of every PIL integer mode). Larger ranges, where the float64 quotient can round up past the floor, are not modelled.
- Accuracy.ComputeAccuracy: the accuracy is the exact rational correct/valid, whereas the Python returns the float64 quotient, which is rounded to the nearest double.
- Dicom.Flatten: the result is an unordered map. The Python dict keeps first-insertion order, and an overwrite of a repeated key keeps that key at its original position; the model says nothing about the order of keys.
- Empty and ragged arrays are excluded by preconditions. numpy's `min` and `max` raise on an empty array, and a numpy array is rectangular. For ranks other than 2 and 3 only `ndim` is kept, since the pixels play no part.
- Preprocess.Convert: its own contract states shape, byte range and the error cases. The per-pixel and per-channel content is stated by the `Convert…`, `Normalize…` and `OutputChannel` lemmas.
- In `analyze_errors`, these parts are left out: all printing; the display sort of line 53; the invalid-prediction examples (lines 56-63); the `DataFrame` and the subgroup accuracies (lines 65-85); and the `prediction_df` and `subgroup_acc` entries of the returned dictionary. When the call returns, none of them affects the lists or the tally.
- Accuracy.AnalyzeErrors: models only the fragment at lines 25-51 of compute_accuracy.py. When the two lists differ in length, the real call never returns: the `pd.DataFrame` of line 66 raises `ValueError`. The model still returns the fragment's lists and tally for that case, so `zip`'s truncation to the shorter list matters only for the fragment, not for any value the function hands back.
- A mistake key is the pair `Mistake(reference, predicted class)` rather than the string `f"{true_class} → {pred_class}"`. For integer labels the string is a one-to-one rendering of the pair.
- Predictions and references are integers. The Python accepts any values that compare with `==`.
- The pydicom library is kept abstract. A dataset is the sequence of its elements in iteration order. `elem.VR == "SQ"` is the `Sequence` case of an element's content. Values have an arbitrary type `V`.
- `str(tag)` is rendered as `(GGGG,EEEE)` in upper-case hex. Only the fact that the rendering holds no bracket is used.
- The code has no handling for a 3-D image whose channel count is neither 1 nor 3, and its intended behaviour is not evident. Such an image is modelled as the failure the code produces, `RgbArrayUnbound`.
- `\d` is modelled as the ASCII digits `0`-`9`; Python's Unicode decimal digits are left out.

