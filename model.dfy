/**
 * The PcaSvmClassifier of model.cpp: its fields, the guards around PCA and
 * SVM, the normalisation range and the label maps. Fitting and applying PCA
 * and the SVM are done by OpenCV; they are function parameters here, and a
 * fitted SVM is an opaque handle.
 */
module Model {
  import opened Wrappers
  import opened Images
  import opened LabelMaps
  import LabelUtils

  // Default constructor arguments.
  const DefaultNumComponents: int := 100
  const DefaultSvmC: real := 5.0
  const DefaultSvmGamma: real := 0.1
  const DefaultEpochs: int := 100000

  /** train gives up when the sample range is narrower than this. */
  const MinRange: real := 0.000001

  /** cv::PCA as far as the classifier looks at it: the mean and the flattened eigenvector matrix. */
  datatype Pca = Pca(mean: seq<real>, eigenvectors: seq<real>)

  /** A cv::ml::SVM instance; only the fitting and loading steps produce one. */
  datatype Svm = Svm(handle: nat)

  /** What svm->train leaves behind: the SVM object and train's return value. */
  datatype SvmFit = SvmFit(model: Svm, trained: bool)

  /** The SVM settings train applies: C, gamma and the iteration cap. */
  datatype SvmParams = SvmParams(c: real, gamma: real, maxIter: int)

  /** What save writes to pca.yml, together with the SVM it writes to svm.xml. */
  datatype Stored = Stored(pca: Pca, minVal: real, maxVal: real, numComponents: int,
                           svmC: real, svmGamma: real, svm: Svm)

  // ---------------------------------------------------------------------------
  // Normalisation

  function MinReal(s: seq<real>): (m: real)
    requires |s| > 0
    ensures m in s && forall i :: 0 <= i < |s| ==> m <= s[i]
  {
    if |s| == 1 then s[0]
    else
      var rest := MinReal(s[..|s| - 1]);
      assert forall i :: 0 <= i < |s| - 1 ==> s[..|s| - 1][i] == s[i];
      if s[|s| - 1] < rest then s[|s| - 1] else rest
  }

  function MaxReal(s: seq<real>): (m: real)
    requires |s| > 0
    ensures m in s && forall i :: 0 <= i < |s| ==> s[i] <= m
  {
    if |s| == 1 then s[0]
    else
      var rest := MaxReal(s[..|s| - 1]);
      assert forall i :: 0 <= i < |s| - 1 ==> s[..|s| - 1][i] == s[i];
      if s[|s| - 1] > rest then s[|s| - 1] else rest
  }

  /** minMaxLoc over the sample matrix; an empty matrix gives (0, 0). */
  function SampleRange(samples: seq<seq<real>>): (r: (real, real))
    ensures Flatten(samples) == [] ==> r == (0.0, 0.0)
    ensures Flatten(samples) != [] ==>
              r.0 in Flatten(samples) && r.1 in Flatten(samples) &&
              forall i :: 0 <= i < |Flatten(samples)| ==> r.0 <= Flatten(samples)[i] <= r.1
  {
    var e := Flatten(samples);
    if e == [] then (0.0, 0.0) else (MinReal(e), MaxReal(e))
  }

  /** The map train applies with convertTo: x * (1 / (max - min)) + (-min / (max - min)). */
  function TrainScale(x: real, minV: real, maxV: real): real
    requires maxV != minV
  {
    x * (1.0 / (maxV - minV)) + (-minV / (maxV - minV))
  }

  /** The map predict applies: (x - min) / (max - min). */
  function PredictScale(x: real, minV: real, maxV: real): real
    requires maxV != minV
  {
    (x - minV) / (maxV - minV)
  }

  /** train and predict normalise with the same affine map. */
  lemma ScalesAgree(x: real, minV: real, maxV: real)
    requires maxV != minV
    ensures TrainScale(x, minV, maxV) == PredictScale(x, minV, maxV)
  {
    var d := maxV - minV;
    assert x * (1.0 / d) == x / d;
    assert (x - minV) / d == x / d - minV / d;
  }

  lemma DivSelf(d: real)
    requires d > 0.0
    ensures d / d == 1.0
  {
  }

  /** A value inside the range is normalised into [0, 1], the ends to 0 and 1. */
  lemma ScaleInUnit(x: real, minV: real, maxV: real)
    requires minV < maxV && minV <= x <= maxV
    ensures 0.0 <= PredictScale(x, minV, maxV) <= 1.0
    ensures PredictScale(minV, minV, maxV) == 0.0 && PredictScale(maxV, minV, maxV) == 1.0
  {
    var d := maxV - minV;
    var q := (x - minV) / d;
    assert q * d == x - minV;
    assert q < 0.0 ==> q * d < 0.0;
    assert q > 1.0 ==> q * d > 1.0 * d;
    DivSelf(d);
    assert PredictScale(maxV, minV, maxV) == d / d;
  }

  /** The training matrix after convertTo: every entry mapped by TrainScale. */
  function NormalizeRows(samples: seq<seq<real>>, minV: real, maxV: real): (out: seq<seq<real>>)
    requires maxV != minV
    ensures |out| == |samples|
    ensures forall i :: 0 <= i < |samples| ==> |out[i]| == |samples[i]|
  {
    seq(|samples|, i requires 0 <= i < |samples| =>
      seq(|samples[i]|, j requires 0 <= j < |samples[i]| => TrainScale(samples[i][j], minV, maxV)))
  }

  /** pca.project applied row by row. */
  function ProjectRows(pca: Pca, rows: seq<seq<real>>, project: (Pca, seq<real>) -> seq<real>): (out: seq<seq<real>>)
    ensures |out| == |rows|
  {
    seq(|rows|, i requires 0 <= i < |rows| => project(pca, rows[i]))
  }

  /** The flattened pixels as predict normalises them: each mapped by PredictScale. */
  function NormalizeSample(px: seq<Byte>, minV: real, maxV: real): (out: seq<real>)
    requires maxV != minV
    ensures |out| == |px|
    ensures forall i :: 0 <= i < |px| ==> out[i] == PredictScale(px[i] as real, minV, maxV)
  {
    seq(|px|, i requires 0 <= i < |px| => PredictScale(px[i] as real, minV, maxV))
  }

  /** Pixels inside the stored range are normalised into [0, 1]. */
  lemma NormalizeSampleInUnit(px: seq<Byte>, minV: real, maxV: real)
    requires minV < maxV && forall i :: 0 <= i < |px| ==> minV <= px[i] as real <= maxV
    ensures forall i :: 0 <= i < |px| ==> 0.0 <= NormalizeSample(px, minV, maxV)[i] <= 1.0
  {
    forall i | 0 <= i < |px| ensures 0.0 <= NormalizeSample(px, minV, maxV)[i] <= 1.0 {
      ScaleInUnit(px[i] as real, minV, maxV);
    }
  }

  /** static_cast<int> of a float: truncation toward zero. */
  function TruncToInt(x: real): (n: int)
    ensures x >= 0.0 ==> n as real <= x < n as real + 1.0
    ensures x < 0.0 ==> n as real - 1.0 < x <= n as real
  {
    if x >= 0.0 then x.Floor else -((-x).Floor)
  }

  // ---------------------------------------------------------------------------
  // The classifier

  class PcaSvmClassifier {
    var numComponents: int
    var epochs: int
    var svmC: real
    var svmGamma: real
    var minVal: real
    var maxVal: real
    var pca: Pca
    var svm: Option<Svm>
    var labelMap: map<string, int>
    var inverseMap: map<int, string>

    /** The hyperparameters are stored, the range starts as [0, 255]; there is no PCA, SVM or label yet. */
    constructor (numComponents: int, svmC: real, svmGamma: real, epochs: int)
      ensures this.numComponents == numComponents && this.svmC == svmC
      ensures this.svmGamma == svmGamma && this.epochs == epochs
      ensures minVal == 0.0 && maxVal == 255.0
      ensures pca == Pca([], []) && svm == None
      ensures labelMap == map[] && inverseMap == map[]
    {
      this.numComponents := numComponents;
      this.svmC := svmC;
      this.svmGamma := svmGamma;
      this.epochs := epochs;
      minVal := 0.0;
      maxVal := 255.0;
      pca := Pca([], []);
      svm := None;
      labelMap := map[];
      inverseMap := map[];
    }

    /** The constructor called with the default arguments the header declares. */
    constructor Default()
      ensures numComponents == DefaultNumComponents && svmC == DefaultSvmC
      ensures svmGamma == DefaultSvmGamma && epochs == DefaultEpochs
      ensures minVal == 0.0 && maxVal == 255.0
      ensures pca == Pca([], []) && svm == None
      ensures labelMap == map[] && inverseMap == map[]
    {
      numComponents, svmC, svmGamma, epochs := DefaultNumComponents, DefaultSvmC, DefaultSvmGamma, DefaultEpochs;
      minVal, maxVal := 0.0, 255.0;
      pca, svm := Pca([], []), None;
      labelMap, inverseMap := map[], map[];
    }

    /** Both an SVM and PCA eigenvectors are present: the condition predict and save test. */
    predicate Ready()
      reads this
    {
      svm.Some? && pca.eigenvectors != []
    }

    /** setNormalizationRange: sets the two range fields and nothing else. */
    method SetNormalizationRange(minV: real, maxV: real)
      modifies this`minVal, this`maxVal
      ensures minVal == minV && maxVal == maxV
    {
      minVal := minV;
      maxVal := maxV;
    }

    /**
     * train: take the range of the samples (stored even when training is
     * refused), refuse a range narrower than 1e-6 without touching PCA or SVM,
     * otherwise fit PCA on the normalised samples and the SVM on their
     * projections; the result is the SVM's own success flag.
     */
    method Train(samples: seq<seq<real>>, labels: seq<int>,
                 fitPca: (seq<seq<real>>, int) -> Pca,
                 project: (Pca, seq<real>) -> seq<real>,
                 fitSvm: (seq<seq<real>>, seq<int>, SvmParams) -> SvmFit)
      returns (ok: bool)
      modifies this`minVal, this`maxVal, this`pca, this`svm
      ensures (minVal, maxVal) == SampleRange(samples)
      ensures maxVal - minVal < MinRange ==> !ok && pca == old(pca) && svm == old(svm)
      ensures maxVal - minVal >= MinRange ==>
                var normalized := NormalizeRows(samples, minVal, maxVal);
                var fit := fitSvm(ProjectRows(fitPca(normalized, numComponents), normalized, project),
                                  labels, SvmParams(svmC, svmGamma, epochs));
                pca == fitPca(normalized, numComponents) && svm == Some(fit.model) && ok == fit.trained
    {
      var range := SampleRange(samples);
      minVal, maxVal := range.0, range.1;
      if maxVal - minVal < MinRange {
        return false;
      }
      var normalized := NormalizeRows(samples, minVal, maxVal);
      pca := fitPca(normalized, numComponents);
      var projected := ProjectRows(pca, normalized, project);
      var fit := fitSvm(projected, labels, SvmParams(svmC, svmGamma, epochs));
      svm := Some(fit.model);
      ok := fit.trained;
    }

    /**
     * predict: -1 unless the classifier is ready; otherwise the pixels are
     * normalised with the stored range, projected and classified, and the
     * SVM's answer is truncated to an int.
     */
    function Predict(img: Image, project: (Pca, seq<real>) -> seq<real>,
                     decide: (Svm, seq<real>) -> real): (classId: int)
      reads this
      requires !Ready() || maxVal != minVal
      ensures !Ready() ==> classId == -1
      ensures Ready() ==>
                classId == TruncToInt(decide(svm.value, project(pca, NormalizeSample(Flatten(img.pixels), minVal, maxVal))))
    {
      if !Ready() then -1
      else TruncToInt(decide(svm.value, project(pca, NormalizeSample(Flatten(img.pixels), minVal, maxVal))))
    }

    /** save: refuse unless ready; otherwise everything predict needs is written out. */
    method Save() returns (ok: bool, stored: Option<Stored>)
      ensures ok <==> Ready()
      ensures !ok ==> stored == None
      ensures ok ==> stored == Some(Stored(pca, minVal, maxVal, numComponents, svmC, svmGamma, svm.value))
    {
      if !Ready() {
        return false, None;
      }
      return true, Some(Stored(pca, minVal, maxVal, numComponents, svmC, svmGamma, svm.value));
    }

    /**
     * load: when pca.yml cannot be opened (stored is None) nothing changes;
     * otherwise its values replace the fields and the SVM is whatever
     * svm.xml yields. The result is whether an SVM was loaded.
     */
    method Load(stored: Option<Stored>, svmFile: Option<Svm>) returns (ok: bool)
      modifies this`pca, this`minVal, this`maxVal, this`numComponents, this`svmC, this`svmGamma, this`svm
      ensures stored.None? ==>
                !ok && pca == old(pca) && svm == old(svm) && minVal == old(minVal) &&
                maxVal == old(maxVal) && numComponents == old(numComponents) &&
                svmC == old(svmC) && svmGamma == old(svmGamma)
      ensures stored.Some? ==>
                pca == stored.value.pca && minVal == stored.value.minVal &&
                maxVal == stored.value.maxVal && numComponents == stored.value.numComponents &&
                svmC == stored.value.svmC && svmGamma == stored.value.svmGamma &&
                svm == svmFile && ok == svmFile.Some?
    {
      if stored.None? {
        return false;
      }
      var s := stored.value;
      pca, minVal, maxVal := s.pca, s.minVal, s.maxVal;
      numComponents, svmC, svmGamma := s.numComponents, s.svmC, s.svmGamma;
      svm := svmFile;
      ok := svm.Some?;
    }

    /**
     * save on this classifier into a directory, followed by load on `dst`
     * from the same directory, with svm.xml read back as the SVM that was
     * written. `prior` and `priorSvm` are what the directory held before:
     * a refused save writes nothing, so the load then reads those.
     */
    method SaveThenLoad(dst: PcaSvmClassifier, prior: Option<Stored>, priorSvm: Option<Svm>)
      returns (saved: bool, loaded: bool)
      requires dst != this
      modifies dst`pca, dst`minVal, dst`maxVal, dst`numComponents, dst`svmC, dst`svmGamma, dst`svm
      ensures saved <==> Ready()
      ensures saved ==> loaded && dst.Ready() && dst.pca == pca && dst.svm == svm &&
                        dst.minVal == minVal && dst.maxVal == maxVal &&
                        dst.numComponents == numComponents && dst.svmC == svmC && dst.svmGamma == svmGamma
      ensures !saved && prior.None? ==>
                !loaded && dst.pca == old(dst.pca) && dst.svm == old(dst.svm) &&
                dst.minVal == old(dst.minVal) && dst.maxVal == old(dst.maxVal) &&
                dst.numComponents == old(dst.numComponents) &&
                dst.svmC == old(dst.svmC) && dst.svmGamma == old(dst.svmGamma)
      ensures !saved && prior.Some? ==>
                dst.pca == prior.value.pca && dst.minVal == prior.value.minVal &&
                dst.maxVal == prior.value.maxVal && dst.numComponents == prior.value.numComponents &&
                dst.svmC == prior.value.svmC && dst.svmGamma == prior.value.svmGamma &&
                dst.svm == priorSvm && loaded == priorSvm.Some?
    {
      var stored;
      saved, stored := Save();
      if !saved {
        loaded := dst.Load(prior, priorSvm);
        return;
      }
      loaded := dst.Load(stored, svm);
    }

    /** buildLabelMapFromDir: both maps are cleared, then filled from the listing. */
    method BuildLabelMapFromDir(entries: seq<DirEntry>)
      modifies this`labelMap, this`inverseMap
      ensures labelMap == NameIds(ClassNames(entries))
      ensures inverseMap == NameInverse(ClassNames(entries))
    {
      labelMap, inverseMap := LabelUtils.BuildLabelMap(entries, map[]);
      assert map[] + NameInverse(ClassNames(entries)) == NameInverse(ClassNames(entries));
    }

    /** saveLabelMap: write the map to dirPath + "/label_map.txt"; false when it cannot be opened. */
    method SaveLabelMap(dirPath: string, files: LabelUtils.Files, canOpen: bool)
      returns (ok: bool, files': LabelUtils.Files)
      ensures ok == canOpen
      ensures canOpen ==> files' == files[LabelFilePath(dirPath) := Serialize(labelMap)]
      ensures !canOpen ==> files' == files
    {
      if !canOpen {
        return false, files;
      }
      files' := LabelUtils.SaveLabelMap(labelMap, LabelFilePath(dirPath), files, true);
      ok := true;
    }

    /**
     * loadLabelMap: clear both maps, then read the file at dirPath itself
     * (not dirPath + "/label_map.txt"); false when it cannot be opened.
     */
    method LoadLabelMap(dirPath: string, files: LabelUtils.Files) returns (ok: bool)
      modifies this`labelMap, this`inverseMap
      ensures ok <==> dirPath in files
      ensures !ok ==> labelMap == map[] && inverseMap == map[]
      ensures ok ==> labelMap == Insert(map[], ParsePairs(files[dirPath])) &&
                     inverseMap == Insert(map[], Swapped(ParsePairs(files[dirPath])))
    {
      labelMap, inverseMap := map[], map[];
      if dirPath !in files {
        return false;
      }
      labelMap, inverseMap := LabelUtils.ReadEntries(files[dirPath], map[]);
      ok := true;
    }

    /**
     * saveLabelMap(dir) and then loadLabelMap on the file it wrote,
     * dir + "/label_map.txt": for keys without white space (and non-empty)
     * and int values, the label map comes back unchanged.
     */
    method SaveThenLoadLabelMap(dirPath: string, files: LabelUtils.Files)
      returns (ok: bool, files': LabelUtils.Files)
      requires forall k :: k in labelMap ==> WellFormedKey(k) && InInt(labelMap[k])
      modifies this`labelMap, this`inverseMap
      ensures ok && files' == files[LabelFilePath(dirPath) := Serialize(old(labelMap))]
      ensures labelMap == old(labelMap)
    {
      var saved;
      saved, files' := SaveLabelMap(dirPath, files, true);
      SaveLoadRoundTrip(labelMap);
      ok := LoadLabelMap(LabelFilePath(dirPath), files');
    }

    /** labelToId: the stored id, or -1. */
    function LabelToId(key: string): (id: int)
      reads this
      ensures key in labelMap ==> id == labelMap[key]
      ensures key !in labelMap ==> id == -1
    {
      LookupId(labelMap, key)
    }

    /** idToLabel: the stored name, or "". */
    function IdToLabel(id: int): (name: string)
      reads this
      ensures id in inverseMap ==> name == inverseMap[id]
      ensures id !in inverseMap ==> name == ""
    {
      LookupName(inverseMap, id)
    }
  }

  /** The file saveLabelMap writes. */
  function LabelFilePath(dirPath: string): (p: string)
    ensures |p| == |dirPath| + 14 && p[..|dirPath|] == dirPath
  {
    dirPath + "/label_map.txt"
  }

  /**
   * saveLabelMap(dir) and loadLabelMap(dir) use different paths: writing the
   * label file leaves the entry that a load of the same dir reads untouched.
   */
  lemma SaveDoesNotFeedLoad(dirPath: string, files: LabelUtils.Files, text: string)
    ensures var files' := files[LabelFilePath(dirPath) := text];
            (dirPath in files' <==> dirPath in files) &&
            (dirPath in files ==> files'[dirPath] == files[dirPath])
  {
    assert |LabelFilePath(dirPath)| != |dirPath|;
  }
}
