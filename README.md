# License-plate recognition core, modelled in Dafny

This project models the decision logic of a C++/OpenCV license-plate
recognizer. It covers five parts:

- **plate location** (`PlateLocator::locatePlates`). This filters the external contours of a
  preprocessed mask by aspect ratio, area ratio and fill ratio. It sorts the
  survivors by how far their aspect ratio is from the target ratio and keeps the
  first `remain` of them.
- **character normalisation** (`image_utils.cpp`). This covers:
  - the target sizes of `resizeToMaxWidth` and `resizeToMinWidth`;
  - `padToSquareAvgMin`, which centres the image and fills the border with `(2·min + mean)/3`;
  - `stretchGrayPercentile`: the histogram, the cumulative histogram, the two percentile searches
    and the linear stretch with rounding and saturation;
  - `binarizeByOtsu`, whose offset threshold is capped at 255;
  - `removeSmallComponents`;
  - their chain `charImgProcess`.
- **the classifier object** (`PcaSvmClassifier` in `model.cpp`). This is a Dafny class with the
  source's fields. It models the constructor, `setNormalizationRange`, the
  range/guard logic of `train`, `predict`, `save` and `load`, and the label maps
  (`buildLabelMapFromDir`, `saveLabelMap`, `loadLabelMap`, `labelToId`,
  `idToLabel`).
- **the free label-map functions** in `label_utils.cpp`. The text format is modelled
  character by character: one `key value\n` line per entry, in `std::map` key
  order. The reader follows the `istream >>` rules: skip white space, then read a
  token, then an optional sign and decimal digits in the `int` range. The loop stops at the first failed
  extraction.
- **dataset assembly** (`dataset_utils.cpp`). This covers `fixPath`, the selection and
  per-class cap of `loadDataset`, and the row permutation of `shuffleSamplesAndLabels`.

Some things that OpenCV or the operating system computes are inputs of the model:

- the contours;
- the interpolated pixels of `cv::resize`;
- the Otsu threshold;
- the connected-component labelling;
- PCA fitting and projection;
- SVM fitting and prediction;
- the random permutation;
- directory listings;
- file contents and whether a file can be opened.

The model then states what the repository's own code does with them. The
file system is a map from paths to text.

Points where the model follows the code rather than a looser reading of it:

- `locatePlates` compares `size()` (unsigned) with an `int`. A negative `remain`
  therefore never truncates the result (`PlateLocator.Kept`). The result is not
  "at most `remain`" in that case.
- `saveLabelMap(dir)` writes `dir + "/label_map.txt"`, but `loadLabelMap(dir)` opens `dir`
  itself. The model keeps both paths. `Model.SaveDoesNotFeedLoad` shows that a load
  of the same argument does not see the file just written.
  `Model.PcaSvmClassifier.SaveThenLoadLabelMap` proves the round trip when the
  written path is passed to the load.
- When both percentile bins coincide, the stretch divides by zero. Every scaled value is then
  NaN, which `saturate_cast<uchar>` turns into 0, so the result is an all-black image.
- On a uniform image the two searches return `minGray = k` and
  `maxGray = k - 1` (`ImageUtils.UniformPercentiles`). The stretch then has a negative slope
  (`ImageUtils.StretchAntitone`), and gray k itself goes to 0, so the image turns black.

## Model

| member | source | states |
|---|---|---|
| PlateLocator.LocatePlates | src/PlateLocator.cpp:56-97 | the result is a ranking of the accepted contours' rectangles. It is a sub-multiset of them. Its length is `remain` capped by their number, with no cap when `remain` is negative. It is ordered by distance to the target aspect ratio. No dropped rectangle is closer than a kept one. Every returned rectangle belongs to a contour that passes all four tests |
| PlateLocator.SurvivorsAccepted | src/PlateLocator.cpp:71-86 | every survivor is the bounding rectangle of some input contour that passes the zero-size, aspect, area and fill tests |
| PlateLocator.SurvivorsPositive | src/PlateLocator.cpp:73-74 | zero-width and zero-height rectangles are skipped, so every survivor's aspect ratio is defined |
| PlateLocator.SurvivorsSubMultiset | src/PlateLocator.cpp:71-86 | the survivors are drawn from the input rectangles without duplication |
| PlateLocator.InsertByKey | src/PlateLocator.cpp:88-93 | inserting into a sequence sorted by key keeps it sorted and adds exactly the new element |
| PlateLocator.SortByKey | src/PlateLocator.cpp:88-93 | the comparator sort yields a permutation of its input, sorted by key |
| PlateLocator.PermutationPositive | src/PlateLocator.cpp:88-93 | sorting keeps the length and the nonzero heights |
| PlateLocator.SortedPrefix | src/PlateLocator.cpp:95 | a prefix of the sorted survivors is still sorted by distance |
| PlateLocator.DroppedFarther | src/PlateLocator.cpp:88-95 | every rectangle dropped by the truncation is at least as far from the target as every kept one |
| PlateLocator.TruncateIsRanking | src/PlateLocator.cpp:95 | truncating a sorted permutation of the survivors to the kept length gives a ranking |
| PlateLocator.SinglePlateScenario | include/PlateLocator.hpp:29-35 | with the default thresholds, one solid 314×100 rectangle in a 1000×628 mask, beside a square blob and a zero-width contour, is the only plate returned |
| Images.Threshold | src/dataset_utils.cpp:61 | `THRESH_BINARY` at `t`: a pixel becomes 255 exactly when it exceeds `t`, and 0 otherwise. The size is kept |
| Images.ThresholdBinary | src/dataset_utils.cpp:61 | the thresholded image is binary. A binary image thresholded at any `t` in [0, 255) is unchanged |
| Images.FlattenLength | src/dataset_utils.cpp:63 | `reshape(1, 1)` of a rows×cols image has rows·cols values |
| ImageUtils.ResizeToMaxWidthSize | src/image_utils.cpp:16-22 | in exact arithmetic, the truncated target size fits in maxWidth×maxWidth. The longer side becomes exactly maxWidth. The shorter side is the exact scaled value rounded down |
| ImageUtils.ResizeToMinWidthSize | src/image_utils.cpp:4-10 | both target sides are at least minWidth. The shorter side becomes exactly minWidth. The other side is the scaled value rounded down |
| ImageUtils.MaxWidthAccepted | src/image_utils.cpp:16-24 | both target sides are positive exactly when maxWidth > 0 and the short side times maxWidth reaches the long side |
| ImageUtils.ResizeToMaxWidth | src/image_utils.cpp:16-26 | in exact arithmetic, fails exactly on an empty image or a target size with a side below 1, which `cv::resize` rejects. Otherwise the image fits the square and touches it on one side |
| ImageUtils.ResizeToMinWidth | src/image_utils.cpp:4-14 | fails exactly on an empty image or a non-positive minWidth. Otherwise both sides are at least minWidth and one equals it |
| ImageUtils.SquarePadding | src/image_utils.cpp:29-32 | the four borders add up to the square. They are non-negative when the image fits. Bottom and right get the odd pixel. A border is negative when the image does not fit |
| ImageUtils.MeanBounds | src/image_utils.cpp:35-36 | the mean lies between the minimum and the maximum pixel |
| ImageUtils.PadValueBounds | src/image_utils.cpp:34-37 | `(2·min + mean)/3` lies between the minimum and the mean |
| ImageUtils.FillByte | src/image_utils.cpp:37-40 | the rounded, saturated border value lies between the image's minimum and maximum |
| ImageUtils.PadToSquareAvgMin | src/image_utils.cpp:28-42 | fails exactly when the image does not fit in the square. Otherwise the result is width×width, with the image at the centre offsets and the fill value everywhere else |
| ImageUtils.CdfCounts | src/image_utils.cpp:63-70 | bin i of the cumulative histogram counts the pixels of value at most i |
| ImageUtils.CdfTotal | src/image_utils.cpp:71 | the last cumulative bin is the pixel count |
| ImageUtils.CdfMonotone | src/image_utils.cpp:66-70 | the cumulative histogram is non-decreasing |
| ImageUtils.CumulativeHistogram | src/image_utils.cpp:66-70 | the loop computes the running sum of the histogram |
| ImageUtils.PercentileBounds | src/image_utils.cpp:74-86 | minGray is the first bin whose share reaches the lower percentile, or 0 if none does. maxGray is the last bin whose share is at most the upper percentile, or 255 if none is. Division by a zero total is a failed test |
| ImageUtils.PercentileUnique | src/image_utils.cpp:74-86 | the percentile specification determines both bins uniquely |
| ImageUtils.UniformPercentiles | src/image_utils.cpp:74-86 | for an image of the single gray k > 0, lower in (0, 1] and upper in [0, 1), the bins are k and k − 1 |
| ImageUtils.StretchPixel | src/image_utils.cpp:90 | with distinct bins, the pixel is within 0.5 of the linear map that sends minGray to 0 and maxGray to 255, clamped to [0, 255]. minGray goes to exactly 0 and maxGray to exactly 255, whichever is larger. With minGray < maxGray, pixels at or below minGray go to 0 and pixels at or above maxGray go to 255. With equal bins every pixel goes to 0 |
| ImageUtils.StretchMonotone | src/image_utils.cpp:90 | with minGray < maxGray the stretch preserves pixel order |
| ImageUtils.StretchAntitone | src/image_utils.cpp:90 | with minGray > maxGray the stretch reverses pixel order |
| ImageUtils.StretchGrayPercentile | src/image_utils.cpp:57-93 | the output has the input's size. It is the stretch between bins that meet the percentile specification of the input's cumulative histogram |
| ImageUtils.BinarizeByOtsu | src/image_utils.cpp:95-101 | binary, and a pixel is 255 exactly when it exceeds the Otsu threshold plus the offset. The cap at 255 is included |
| ImageUtils.BinarizeOffsetMonotone | src/image_utils.cpp:98 | a larger offset never adds foreground |
| ImageUtils.BinarizeSaturated | src/image_utils.cpp:98 | when Otsu + offset reaches 255, the image is all background |
| ImageUtils.RemoveSmallComponents | src/image_utils.cpp:103-113 | a pixel is 255 exactly when its component label is 1 or more and that component's area is at least minSize. Otherwise it is 0 |
| ImageUtils.CleanBinary | src/image_utils.cpp:106-111 | the cleaned image is binary |
| ImageUtils.CleanSubset | src/image_utils.cpp:106-111 | cleaning only removes foreground |
| ImageUtils.CleanKeepsLarge | src/image_utils.cpp:107-111 | when no component is smaller than minSize, the cleaned image equals the foreground |
| ImageUtils.CharImgProcess | src/image_utils.cpp:115-123 | fails exactly when the resize does. Otherwise the result is a binary imgeSize square. It is the resize, pad, stretch (0.05, 0.95), Otsu +10 and clean (3) chain of the input. For a labelling that marks the foreground, every foreground pixel of the result is foreground in the binarised image |
| ImageUtils.ForegroundKept | src/image_utils.cpp:119-120 | cleaning the binarised image keeps it binary and removes only foreground |
| LabelMaps.ClassNames | src/label_utils.cpp:8-10 | the listed names are exactly the names of directory entries |
| LabelMaps.NameIdsFacts | src/label_utils.cpp:11 | the label map's keys are the class names. Each maps to a position holding it, the last such position when names repeat |
| LabelMaps.ClassNamesDistinct | src/label_utils.cpp:8-10 | a listing without repeated names gives distinct class names |
| LabelMaps.MutualInverse | src/label_utils.cpp:11-12 | for distinct names, the inverse map's keys are exactly 0 .. n−1. The two maps are inverse bijections |
| LabelMaps.LookupAfterBuild | src/model.cpp:119-127 | after a build, labelToId is −1 exactly for unknown names and idToLabel is "" exactly outside 0 .. n−1. The two lookups undo each other |
| LabelMaps.LexTransitive | src/label_utils.cpp:19 | the `std::map` key order (lexicographic by character) is transitive |
| LabelMaps.LexTotal | src/label_utils.cpp:19 | the key order is total on distinct keys |
| LabelMaps.SortedKeys | src/label_utils.cpp:19 | the keys of the map, each once, in strictly ascending order |
| LabelMaps.NatToString | src/label_utils.cpp:19 | decimal digits whose value is the number |
| LabelMaps.ReadInt | src/label_utils.cpp:26 | a successful read yields a value in the `int` range and consumes input |
| LabelMaps.ReadIntWritten | src/label_utils.cpp:19-26 | reading back a written `int` followed by a newline yields the same value |
| LabelMaps.InsertLastWins | src/label_utils.cpp:27-28 | after the read loop, a key read several times holds its last value |
| LabelMaps.InsertUntouched | src/label_utils.cpp:27-28 | keys never read keep their previous entry |
| LabelMaps.ParseSerializedKeys | src/label_utils.cpp:19-26 | parsing the written lines gives back the written (key, value) pairs, in order |
| LabelMaps.SaveLoadRoundTrip | src/label_utils.cpp:17-31 | for non-empty keys without white space and `int` values, loading what was saved gives the same map |
| LabelMaps.SerializeSingle | src/label_utils.cpp:19 | a one-entry map is written as `key value\n` |
| LabelMaps.SpaceInKeyBreaksRoundTrip | src/label_utils.cpp:19-26 | a key containing a space does not round-trip through the file |
| LabelUtils.BuildLabelMap | src/label_utils.cpp:5-15 | ids 0, 1, … in listing order for the directory entries. The caller's inverse map is extended, and entries at other ids stay |
| LabelUtils.WriteEntries | src/label_utils.cpp:19 | the written text is the key-ordered serialisation of the map |
| LabelUtils.SaveLabelMap | src/label_utils.cpp:17-20 | the file is replaced by the serialisation. When the file cannot be opened, nothing changes |
| LabelUtils.ReadEntries | src/label_utils.cpp:26-29 | the read loop inserts every parsed pair into both maps, in order |
| LabelUtils.LoadLabelMap | src/label_utils.cpp:22-31 | a missing file gives an empty map and leaves the inverse map as it was. Otherwise both maps receive the parsed pairs |
| Model.SampleRange | src/model.cpp:15 | the minimum and maximum over all sample values, both attained. It is (0, 0) for no values |
| Model.ScalesAgree | src/model.cpp:19-40 | train's `x·(1/(max−min)) − min/(max−min)` equals predict's `(x−min)/(max−min)` |
| Model.ScaleInUnit | src/model.cpp:19 | values within the range map into [0, 1], with min to 0 and max to 1 |
| Model.NormalizeSample | src/model.cpp:38-40 | every flattened pixel is scaled by the stored range |
| Model.NormalizeSampleInUnit | src/model.cpp:38-40 | for pixel values within the stored range, the normalised sample lies in [0, 1] |
| Model.TruncToInt | src/model.cpp:45 | `static_cast<int>` rounds toward zero |
| Model.LabelFilePath | src/model.cpp:97 | the label file path extends the directory path by `/label_map.txt` (14 characters) |
| Model.SaveDoesNotFeedLoad | src/model.cpp:97-108 | writing `dir/label_map.txt` leaves the `dir` entry that loadLabelMap opens unchanged |
| Model.PcaSvmClassifier.constructor | src/model.cpp:5-7 | the four settings as given, the range [0, 255], no PCA, no SVM and empty label maps |
| Model.PcaSvmClassifier.Default | include/model.hpp:8-11 | the default settings 100 components, C = 5, gamma = 0.1 and 100000 iterations, with the same initial state |
| Model.PcaSvmClassifier.SetNormalizationRange | src/model.cpp:9-12 | sets the range fields and changes nothing else |
| Model.PcaSvmClassifier.Train | src/model.cpp:14-33 | the range is always updated. A range narrower than 1e-6 returns false and leaves PCA and SVM unchanged. Otherwise PCA is fitted on the normalised samples and the SVM on their projections with (C, gamma, epochs), and the result is the SVM's success flag |
| Model.PcaSvmClassifier.Predict | src/model.cpp:35-46 | −1 unless both SVM and eigenvectors are present. Otherwise the truncated SVM answer on the projected, normalised pixels |
| Model.PcaSvmClassifier.Save | src/model.cpp:48-64 | refuses exactly when not ready. Otherwise it writes the PCA, range, settings and SVM |
| Model.PcaSvmClassifier.Load | src/model.cpp:66-81 | an unopenable pca.yml changes nothing and returns false. Otherwise the stored fields are taken over and the result says whether an SVM was loaded |
| Model.PcaSvmClassifier.SaveThenLoad | src/model.cpp:48-81 | a ready classifier saved into a directory and loaded into another one gives it every field predict uses. An unready one writes nothing, so the load reads whatever the directory already held: it changes nothing when there was no pca.yml, and otherwise takes over the earlier pca.yml and svm.xml |
| Model.PcaSvmClassifier.BuildLabelMapFromDir | src/model.cpp:83-94 | both maps are cleared and rebuilt from the listing |
| Model.PcaSvmClassifier.SaveLabelMap | src/model.cpp:96-103 | returns whether the file opened. If it did, `dir/label_map.txt` holds the serialised map |
| Model.PcaSvmClassifier.LoadLabelMap | src/model.cpp:105-117 | both maps are cleared. The result is whether `dirPath` exists, and if it does, its pairs fill both maps |
| Model.PcaSvmClassifier.SaveThenLoadLabelMap | src/model.cpp:96-117 | saving, then loading the written file, restores the label map |
| Model.PcaSvmClassifier.LabelToId | src/model.cpp:119-122 | the stored id, or −1 for an unknown name |
| Model.PcaSvmClassifier.IdToLabel | src/model.cpp:124-127 | the stored name, or "" for an unknown id |
| DatasetUtils.FixPath | src/dataset_utils.cpp:16-20 | same length, with every backslash replaced by a slash and nothing else changed |
| DatasetUtils.FixPathIdempotent | src/dataset_utils.cpp:16-20 | no backslash remains, and applying it twice changes nothing more |
| DatasetUtils.FixPathKeepsOthers | src/dataset_utils.cpp:16-20 | a path without backslashes is unchanged |
| DatasetUtils.PermuteMultiset | src/dataset_utils.cpp:78-88 | copying rows along a permutation of 0 .. n−1 keeps the multiset of rows |
| DatasetUtils.ZipPermute | src/dataset_utils.cpp:85-88 | permuting samples and labels with the same index permutes their pairs |
| DatasetUtils.ShuffleSamplesAndLabels | src/dataset_utils.cpp:73-92 | fails exactly on a row-count mismatch. Otherwise row i of each output is row idx[i] of its input. Both outputs keep their multisets, and the sample–label pairs are kept together |
| DatasetUtils.Selected | src/dataset_utils.cpp:42-58 | every selected image is one of the readable entries |
| DatasetUtils.SelectedCount | src/dataset_utils.cpp:42-68 | a class yields as many images as it has readable entries, capped by maxPerClass. A cap of 0 or less yields none. Unreadable entries do not count |
| DatasetUtils.SampleBinary | src/dataset_utils.cpp:61-64 | each sample row has rows·cols values, all 0 or 255 |
| DatasetUtils.DirSamples | src/dataset_utils.cpp:28-68 | a non-directory or unmapped entry adds no rows. Otherwise one row per selected image |
| DatasetUtils.DirLabels | src/dataset_utils.cpp:30-67 | the rows of a used class are all labelled with that class's id |
| DatasetUtils.LockStep | src/dataset_utils.cpp:66-67 | samples and labels grow by the same number of rows |
| DatasetUtils.LabelsFromMap | src/dataset_utils.cpp:28-31 | every label is the label map's id of some directory that was used |
| DatasetUtils.SamplesBinary | src/dataset_utils.cpp:61 | every sample row is binary |
| DatasetUtils.AppendClass | src/dataset_utils.cpp:42-69 | the per-class loop appends exactly the selected images' rows and as many copies of the id |
| DatasetUtils.LoadDataset | src/dataset_utils.cpp:22-71 | the samples and labels passed in are extended by the rows and labels of every used class, in listing order |

## Left out

- Floating point. The ratios of locatePlates, the resize scale, the percentile shares,
  the stretch coefficients and the normalisation are exact rationals, and `cv::Mat`'s
  `float` storage is not modelled. Rounding that could flip a comparison at a
  threshold is not captured. The truncations to `int` and the final rounding of the
  stretch are modelled.
- PlateLocator.LocatePlates: `findContours`, `boundingRect` and `countNonZero` are inputs.
  Ties between equally distant rectangles are left in any order, because `std::sort` is
  not stable.
- `PlateLocator::preprocess` and `PlateLocator::segmentCharacters` are morphology and
  contour pipelines built entirely from OpenCV calls. They are not part of this model.
- ImageUtils.ResizeToMaxWidthSize, ImageUtils.ResizeToMaxWidth, ImageUtils.ResizeToMinWidthSize and
  ImageUtils.ResizeToMinWidth: the scale is computed in `double`, and the model uses exact arithmetic.
  A side can then come out one less than the exact value. For example, 49 · (16 / 49) gives
  15.999999999999998, which truncates to 15. An exact side of 1 can also become 0, which
  `cv::resize` rejects. For example, 49 · (2 / 98) gives 0.9999999999999999. The model returns the
  exact truncation in both cases.
- ImageUtils.ResizeToMaxWidth and ImageUtils.ResizeToMinWidth: the interpolated pixel
  values of `cv::resize` are a function parameter. For the minimum-width variant, the target
  size overflowing `int` is not modelled.
- ImageUtils.PadToSquareAvgMin requires a non-empty image. On an empty image `cv::mean` and
  `cv::minMaxLoc` have no pixels to read, and only non-empty images reach it from charImgProcess.
- ImageUtils.StretchGrayPercentile: when the bins coincide, the model assumes that the
  NaN produced by the division by zero becomes 0 in the conversion.
- ImageUtils.BinarizeByOtsu: the Otsu threshold is a parameter. ImageUtils.RemoveSmallComponents:
  the labelling of `connectedComponentsWithStats` is a parameter. Only its relation to the
  foreground is assumed: background is label 0, and every label is below the label count.
- `findMaxImageSize` and `processAndSave` are directory walks with file I/O around
  charImgProcess. They are not part of this model.
- Model.PcaSvmClassifier.Train: PCA fitting, projection and SVM training are parameters.
  The SVM kernel and type settings are not modelled.
- Model.PcaSvmClassifier.Predict requires a non-degenerate range once the classifier is ready
  (the source divides by max − min, which would give NaN).
- Model.PcaSvmClassifier.Save and Model.PcaSvmClassifier.Load: the `FileStorage` file and
  `svm.xml` are values (`Stored`, the loaded SVM), and `create_directories` is left out.
  Model.PcaSvmClassifier.SaveThenLoad assumes that `svm.xml` reloads as the SVM that was saved.
- Model.PcaSvmClassifier.Load: a pca.yml without a readable svm.xml is modelled as a false return
  with the pca.yml fields already taken over. The model does not capture whether `SVM::load` raises an
  exception on a missing file instead of returning an empty pointer.
- Model.PcaSvmClassifier.LoadLabelMap and LabelUtils.LoadLabelMap: a path naming a directory
  is treated like a missing file.
- LabelMaps.SaveLoadRoundTrip: keys with white space, empty keys and values outside the `int`
  range do not round-trip, as LabelMaps.SpaceInKeyBreaksRoundTrip shows.
- DatasetUtils.LoadDataset and DatasetUtils.ShuffleSamplesAndLabels: the random generator and
  `std::shuffle` are left out. The listing order and the shuffled order of each class are
  inputs, and the permutation is a parameter.
- DatasetUtils.LoadDataset: `cv::imread` is modelled as `None` for an unreadable entry. The
  error message, the Windows path conversion `ws2s`, and the exception `push_back` raises when
  rows of different widths are appended are left out.
- `svm_utils.cpp`, `recognize_utils.cpp` and `main.cpp` are drivers around the modelled
  parts. They are not part of this model.
