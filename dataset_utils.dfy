/**
 * The dataset helpers of dataset_utils.cpp: path separators, the joint
 * shuffle of samples and labels, and which images loadDataset turns into
 * training rows. Directory listings are given as data, already in the order
 * the random shuffle left them; the shuffle permutation is a parameter.
 */
module DatasetUtils {
  import opened Wrappers
  import opened Images

  // ---------------------------------------------------------------------------
  // fixPath

  /** fixPath: every backslash becomes a slash. */
  function FixPath(path: string): (fixed: string)
    ensures |fixed| == |path|
    ensures forall i :: 0 <= i < |path| ==> fixed[i] == if path[i] == '\\' then '/' else path[i]
  {
    if path == [] then []
    else [if path[0] == '\\' then '/' else path[0]] + FixPath(path[1..])
  }

  /** A fixed path has no backslash, so fixing it again changes nothing. */
  lemma FixPathIdempotent(path: string)
    ensures '\\' !in FixPath(path)
    ensures FixPath(FixPath(path)) == FixPath(path)
  {
    var fixed := FixPath(path);
    assert forall i :: 0 <= i < |fixed| ==> fixed[i] != '\\';
    assert FixPath(fixed) == fixed;
  }

  /** Only separators change: a path without backslashes is returned as is. */
  lemma FixPathKeepsOthers(path: string)
    requires '\\' !in path
    ensures FixPath(path) == path
  {
  }

  // ---------------------------------------------------------------------------
  // shuffleSamplesAndLabels

  /** 0, 1, ..., n - 1, what std::iota writes. */
  function Range(n: nat): (r: seq<int>)
    ensures |r| == n && forall i :: 0 <= i < n ==> r[i] == i
  {
    seq(n, i => i)
  }

  /** idx holds each of 0 .. n - 1 exactly once, as std::shuffle leaves the iota sequence. */
  predicate IsPermutation(idx: seq<int>, n: nat)
  {
    |idx| == n && multiset(idx) == multiset(Range(n))
  }

  predicate InRange(idx: seq<int>, n: nat)
  {
    forall i :: 0 <= i < |idx| ==> 0 <= idx[i] < n
  }

  lemma PermutationInRange(idx: seq<int>, n: nat)
    requires IsPermutation(idx, n)
    ensures InRange(idx, n)
  {
    forall i | 0 <= i < |idx| ensures 0 <= idx[i] < n {
      assert idx[i] in multiset(idx);
      assert idx[i] in Range(n);
    }
  }

  /** The rows of `s` in the order `idx` names them. */
  function Permute<T>(s: seq<T>, idx: seq<int>): (p: seq<T>)
    requires InRange(idx, |s|)
    ensures |p| == |idx| && forall i :: 0 <= i < |idx| ==> p[i] == s[idx[i]]
  {
    seq(|idx|, i requires 0 <= i < |idx| => s[idx[i]])
  }

  /** Samples paired with their labels, row by row. */
  function Zip<A, B>(a: seq<A>, b: seq<B>): (z: seq<(A, B)>)
    requires |a| == |b|
    ensures |z| == |a| && forall i :: 0 <= i < |a| ==> z[i] == (a[i], b[i])
  {
    seq(|a|, i requires 0 <= i < |a| => (a[i], b[i]))
  }

  lemma MultisetWithout(s: seq<int>, j: int)
    requires 0 <= j < |s|
    ensures multiset(s) == multiset(s[..j] + s[j + 1..]) + multiset([s[j]])
  {
    assert s == s[..j] + [s[j]] + s[j + 1..];
    assert multiset(s) == multiset(s[..j] + s[j + 1..]) + multiset([s[j]]);
  }

  lemma RangeSnoc(n: nat)
    ensures multiset(Range(n + 1)) == multiset(Range(n)) + multiset([n])
  {
    assert Range(n + 1) == Range(n) + [n];
  }

  lemma Cancel(a: multiset<int>, b: multiset<int>, c: multiset<int>, d: multiset<int>, x: int)
    requires a == c + multiset([x]) && b == d + multiset([x]) && a == b
    ensures c == d
  {
    assert c == a - multiset([x]);
  }

  /** Removing the one position that holds n - 1 leaves a permutation of 0 .. n - 2. */
  lemma RemoveLast(idx: seq<int>, n: nat, j: int)
    requires n > 0 && IsPermutation(idx, n) && 0 <= j < n && idx[j] == n - 1
    ensures IsPermutation(idx[..j] + idx[j + 1..], n - 1)
    ensures InRange(idx[..j], n - 1) && InRange(idx[j + 1..], n - 1)
  {
    var rest := idx[..j] + idx[j + 1..];
    MultisetWithout(idx, j);
    RangeSnoc(n - 1);
    Cancel(multiset(idx), multiset(Range(n)), multiset(rest), multiset(Range(n - 1)), n - 1);
    PermutationInRange(rest, n - 1);
    forall i | 0 <= i < |idx[..j]| ensures 0 <= idx[..j][i] < n - 1 {
      assert idx[..j][i] == rest[i];
    }
    var back := idx[j + 1..];
    forall i | 0 <= i < |back| ensures 0 <= back[i] < n - 1 {
      assert back[i] == rest[j + i];
    }
  }

  lemma PermuteConcat<T>(s: seq<T>, a: seq<int>, b: seq<int>)
    requires InRange(a, |s|) && InRange(b, |s|)
    ensures InRange(a + b, |s|)
    ensures Permute(s, a + b) == Permute(s, a) + Permute(s, b)
  {
    assert forall i :: 0 <= i < |b| ==> (a + b)[|a| + i] == b[i];
  }

  /** Reading through idx, where position j names the last row, splits around j. */
  lemma PermuteSplit<T>(s: seq<T>, idx: seq<int>, j: int)
    requires |s| > 0 && 0 <= j < |idx| && idx[j] == |s| - 1
    requires InRange(idx[..j], |s| - 1) && InRange(idx[j + 1..], |s| - 1)
    ensures InRange(idx, |s|)
    ensures Permute(s, idx) ==
            Permute(s[..|s| - 1], idx[..j]) + [s[|s| - 1]] + Permute(s[..|s| - 1], idx[j + 1..])
  {
    assert forall i :: 0 <= i < j ==> idx[..j][i] == idx[i];
    assert forall i :: j < i < |idx| ==> idx[j + 1..][i - j - 1] == idx[i];
    var rhs := Permute(s[..|s| - 1], idx[..j]) + [s[|s| - 1]] + Permute(s[..|s| - 1], idx[j + 1..]);
    forall i | 0 <= i < |idx| ensures Permute(s, idx)[i] == rhs[i] {
      if i > j {
        assert rhs[i] == Permute(s[..|s| - 1], idx[j + 1..])[i - j - 1];
      }
    }
  }

  /**
   * If the index run without position j (which names the last row) permutes
   * the other rows, the whole run permutes all rows.
   */
  lemma PermuteAroundLast<T>(s: seq<T>, idx: seq<int>, j: int)
    requires |s| > 0 && 0 <= j < |idx| && idx[j] == |s| - 1
    requires InRange(idx[..j], |s| - 1) && InRange(idx[j + 1..], |s| - 1)
    ensures InRange(idx, |s|) && InRange(idx[..j] + idx[j + 1..], |s| - 1)
    ensures multiset(Permute(s[..|s| - 1], idx[..j] + idx[j + 1..])) == multiset(s[..|s| - 1]) ==>
            multiset(Permute(s, idx)) == multiset(s)
  {
    var init := s[..|s| - 1];
    PermuteSplit(s, idx, j);
    PermuteConcat(init, idx[..j], idx[j + 1..]);
    var pf, pb := Permute(init, idx[..j]), Permute(init, idx[j + 1..]);
    assert multiset(pf + [s[|s| - 1]] + pb) == multiset(pf + pb) + multiset([s[|s| - 1]]);
    assert s == init + [s[|s| - 1]];
  }

  /** Reordering by a permutation keeps every row, duplicates included. */
  lemma {:induction false} PermuteMultiset<T>(s: seq<T>, idx: seq<int>)
    requires IsPermutation(idx, |s|)
    ensures InRange(idx, |s|)
    ensures multiset(Permute(s, idx)) == multiset(s)
  {
    PermutationInRange(idx, |s|);
    var n := |s|;
    if n > 0 {
      assert Range(n)[n - 1] == n - 1;
      assert (n - 1) in multiset(idx);
      var j :| 0 <= j < |idx| && idx[j] == n - 1;
      RemoveLast(idx, n, j);
      var front, back := idx[..j], idx[j + 1..];
      var init := s[..n - 1];
      PermuteAroundLast(s, idx, j);
      PermuteMultiset(init, front + back);
    }
  }

  /** Permuting two parallel arrays by one index permutes their pairs by it. */
  lemma ZipPermute<A, B>(a: seq<A>, b: seq<B>, idx: seq<int>)
    requires |a| == |b| && InRange(idx, |a|)
    ensures Zip(Permute(a, idx), Permute(b, idx)) == Permute(Zip(a, b), idx)
  {
  }

  datatype ShuffleError = RowCountMismatch

  /**
   * shuffleSamplesAndLabels: row i of both outputs is row idx[i] of the
   * inputs; the CV_Assert on equal row counts is the error case.
   */
  method ShuffleSamplesAndLabels(samples: seq<seq<real>>, labels: seq<int>, idx: seq<int>)
    returns (r: Result<(seq<seq<real>>, seq<int>), ShuffleError>)
    requires IsPermutation(idx, |samples|)
    ensures r.Err? <==> |samples| != |labels|
    ensures r.Ok? ==> |r.value.0| == |samples| && |r.value.1| == |labels|
    ensures r.Ok? ==> forall i :: 0 <= i < |samples| ==>
              0 <= idx[i] < |samples| && r.value.0[i] == samples[idx[i]] && r.value.1[i] == labels[idx[i]]
    ensures r.Ok? ==> multiset(r.value.0) == multiset(samples) && multiset(r.value.1) == multiset(labels)
    ensures r.Ok? ==> multiset(Zip(r.value.0, r.value.1)) == multiset(Zip(samples, labels))
  {
    if |samples| != |labels| {
      return Err(RowCountMismatch);
    }
    PermutationInRange(idx, |samples|);
    var samplesShuffled: seq<seq<real>> := [];
    var labelsShuffled: seq<int> := [];
    for i := 0 to |samples|
      invariant |samplesShuffled| == i && |labelsShuffled| == i
      invariant forall k :: 0 <= k < i ==> samplesShuffled[k] == samples[idx[k]]
      invariant forall k :: 0 <= k < i ==> labelsShuffled[k] == labels[idx[k]]
    {
      samplesShuffled := samplesShuffled + [samples[idx[i]]];
      labelsShuffled := labelsShuffled + [labels[idx[i]]];
    }
    assert samplesShuffled == Permute(samples, idx);
    assert labelsShuffled == Permute(labels, idx);
    PermuteMultiset(samples, idx);
    PermuteMultiset(labels, idx);
    ZipPermute(samples, labels, idx);
    PermuteMultiset(Zip(samples, labels), idx);
    return Ok((samplesShuffled, labelsShuffled));
  }

  // ---------------------------------------------------------------------------
  // loadDataset

  /**
   * One entry of the dataset directory: its file name, whether it is a
   * directory, and what imread makes of each of its entries in shuffled
   * order (None when the result is empty).
   */
  datatype ClassDir = ClassDir(name: string, isDirectory: bool, images: seq<Option<Image>>)

  predicate ValidImages(images: seq<Option<Image>>)
  {
    forall i :: 0 <= i < |images| && images[i].Some? ==> images[i].value.Valid()
  }

  predicate ValidDirs(dirs: seq<ClassDir>)
  {
    forall i :: 0 <= i < |dirs| ==> ValidImages(dirs[i].images)
  }

  /** The entries imread can read. */
  function Readable(images: seq<Option<Image>>): (n: nat)
    ensures n <= |images|
  {
    if images == [] then 0 else (if images[0].Some? then 1 else 0) + Readable(images[1..])
  }

  /**
   * The images the inner loop keeps: it stops once `cap` images are kept and
   * skips unreadable entries without counting them.
   */
  function Selected(images: seq<Option<Image>>, cap: int): (kept: seq<Image>)
    ensures forall i :: 0 <= i < |kept| ==> Some(kept[i]) in images
  {
    if cap <= 0 || images == [] then []
    else if images[0].None? then Selected(images[1..], cap)
    else [images[0].value] + Selected(images[1..], cap - 1)
  }

  /** At most `cap` images per class; fewer only when fewer are readable. */
  lemma {:induction false} SelectedCount(images: seq<Option<Image>>, cap: int)
    ensures cap <= 0 ==> Selected(images, cap) == []
    ensures cap >= 0 ==> |Selected(images, cap)| == if cap < Readable(images) then cap else Readable(images)
  {
    if cap > 0 && images != [] {
      SelectedCount(images[1..], if images[0].None? then cap else cap - 1);
    }
  }

  lemma {:induction false} SelectedValid(images: seq<Option<Image>>, cap: int)
    requires ValidImages(images)
    ensures forall i :: 0 <= i < |Selected(images, cap)| ==> Selected(images, cap)[i].Valid()
  {
    var kept := Selected(images, cap);
    forall i | 0 <= i < |kept| ensures kept[i].Valid() {
      var j :| 0 <= j < |images| && images[j] == Some(kept[i]);
    }
  }

  /** A pixel row as convertTo(CV_32F) leaves it. */
  function ToReals(px: seq<Byte>): (out: seq<real>)
    ensures |out| == |px| && forall i :: 0 <= i < |px| ==> out[i] == px[i] as real
  {
    seq(|px|, i requires 0 <= i < |px| => px[i] as real)
  }

  /** One training row: the image thresholded at 128, flattened and converted to float. */
  function Sample(img: Image): seq<real>
    requires img.Valid()
  {
    ToReals(Flatten(Threshold(img, 128).pixels))
  }

  /** A training row holds only 0 and 255, one entry per pixel. */
  lemma SampleBinary(img: Image)
    requires img.Valid()
    ensures |Sample(img)| == img.rows * img.cols
    ensures forall i :: 0 <= i < |Sample(img)| ==> Sample(img)[i] == 0.0 || Sample(img)[i] == 255.0
  {
    var t := Threshold(img, 128);
    ThresholdBinary(img, 128);
    FlattenLength(t.pixels, t.cols);
    var px := Flatten(t.pixels);
    forall i | 0 <= i < |px| ensures px[i] == 0 || px[i] == 255 {
      assert px[i] in px;
      FlattenMembers(t.pixels, px[i]);
      var r :| 0 <= r < |t.pixels| && px[i] in t.pixels[r];
      var c :| 0 <= c < |t.pixels[r]| && t.pixels[r][c] == px[i];
    }
  }

  function Samples(imgs: seq<Image>): (rows: seq<seq<real>>)
    requires forall i :: 0 <= i < |imgs| ==> imgs[i].Valid()
    ensures |rows| == |imgs| && forall i :: 0 <= i < |imgs| ==> rows[i] == Sample(imgs[i])
  {
    seq(|imgs|, i requires 0 <= i < |imgs| => Sample(imgs[i]))
  }

  /** A directory entry is used when it is a directory whose name has a label. */
  predicate Used(d: ClassDir, labelMap: map<string, int>)
  {
    d.isDirectory && d.name in labelMap
  }

  /** The rows one entry of the dataset directory contributes. */
  function DirSamples(d: ClassDir, labelMap: map<string, int>, cap: int): (rows: seq<seq<real>>)
    requires ValidImages(d.images)
    ensures !Used(d, labelMap) ==> rows == []
    ensures Used(d, labelMap) ==> |rows| == |Selected(d.images, cap)|
  {
    if !Used(d, labelMap) then []
    else
      SelectedValid(d.images, cap);
      Samples(Selected(d.images, cap))
  }

  /** The labels one entry contributes, one per row. */
  function DirLabels(d: ClassDir, labelMap: map<string, int>, cap: int): (ls: seq<int>)
    ensures !Used(d, labelMap) ==> ls == []
    ensures Used(d, labelMap) ==>
              |ls| == |Selected(d.images, cap)| && forall i :: 0 <= i < |ls| ==> ls[i] == labelMap[d.name]
  {
    if !Used(d, labelMap) then []
    else seq(|Selected(d.images, cap)|, _ => labelMap[d.name])
  }

  /** Everything loadDataset appends to samples, directory by directory. */
  function AllSamples(dirs: seq<ClassDir>, labelMap: map<string, int>, cap: int): seq<seq<real>>
    requires ValidDirs(dirs)
  {
    if dirs == [] then [] else DirSamples(dirs[0], labelMap, cap) + AllSamples(dirs[1..], labelMap, cap)
  }

  /** Everything loadDataset appends to labels. */
  function AllLabels(dirs: seq<ClassDir>, labelMap: map<string, int>, cap: int): seq<int>
  {
    if dirs == [] then [] else DirLabels(dirs[0], labelMap, cap) + AllLabels(dirs[1..], labelMap, cap)
  }

  /** Samples and labels grow in lockstep. */
  lemma {:induction false} LockStep(dirs: seq<ClassDir>, labelMap: map<string, int>, cap: int)
    requires ValidDirs(dirs)
    ensures |AllSamples(dirs, labelMap, cap)| == |AllLabels(dirs, labelMap, cap)|
  {
    if dirs != [] {
      LockStep(dirs[1..], labelMap, cap);
    }
  }

  /** `id` is the label of one of the used directories. */
  predicate LabelOfUsed(id: int, dirs: seq<ClassDir>, labelMap: map<string, int>)
  {
    exists d :: d in dirs && Used(d, labelMap) && id == labelMap[d.name]
  }

  /** Every appended label is the labelMap entry of a directory that was used. */
  lemma {:induction false} LabelsFromMap(dirs: seq<ClassDir>, labelMap: map<string, int>, cap: int)
    ensures forall i :: 0 <= i < |AllLabels(dirs, labelMap, cap)| ==>
              LabelOfUsed(AllLabels(dirs, labelMap, cap)[i], dirs, labelMap)
  {
    if dirs != [] {
      LabelsFromMap(dirs[1..], labelMap, cap);
      var head := DirLabels(dirs[0], labelMap, cap);
      var tail := AllLabels(dirs[1..], labelMap, cap);
      var all := AllLabels(dirs, labelMap, cap);
      assert all == head + tail;
      forall i | 0 <= i < |all| ensures LabelOfUsed(all[i], dirs, labelMap) {
        if i < |head| {
          assert all[i] == head[i];
          assert dirs[0] in dirs;
        } else {
          assert all[i] == tail[i - |head|];
          assert LabelOfUsed(tail[i - |head|], dirs[1..], labelMap);
          var d :| d in dirs[1..] && Used(d, labelMap) && all[i] == labelMap[d.name];
          assert d in dirs;
        }
      }
    }
  }

  predicate BinaryRow(row: seq<real>)
  {
    forall j :: 0 <= j < |row| ==> row[j] == 0.0 || row[j] == 255.0
  }

  lemma DirSamplesBinary(d: ClassDir, labelMap: map<string, int>, cap: int)
    requires ValidImages(d.images)
    ensures forall i :: 0 <= i < |DirSamples(d, labelMap, cap)| ==> BinaryRow(DirSamples(d, labelMap, cap)[i])
  {
    if Used(d, labelMap) {
      var kept := Selected(d.images, cap);
      SelectedValid(d.images, cap);
      forall i | 0 <= i < |kept| ensures BinaryRow(DirSamples(d, labelMap, cap)[i]) {
        SampleBinary(kept[i]);
      }
    }
  }

  /** Every appended sample is binary. */
  lemma {:induction false} SamplesBinary(dirs: seq<ClassDir>, labelMap: map<string, int>, cap: int)
    requires ValidDirs(dirs)
    ensures forall i :: 0 <= i < |AllSamples(dirs, labelMap, cap)| ==> BinaryRow(AllSamples(dirs, labelMap, cap)[i])
  {
    if dirs != [] {
      AllSamplesStep(dirs, labelMap, cap, 0);
      assert dirs[0..] == dirs;
      SamplesBinary(dirs[1..], labelMap, cap);
      DirSamplesBinary(dirs[0], labelMap, cap);
    }
  }

  /** With a non-negative cap, a used class contributes min(cap, readable images) rows, and a skipped entry none. */
  lemma DirCount(d: ClassDir, labelMap: map<string, int>, cap: int)
    requires ValidImages(d.images) && cap >= 0
    ensures |DirSamples(d, labelMap, cap)| ==
            if !Used(d, labelMap) then 0
            else if cap < Readable(d.images) then cap else Readable(d.images)
  {
    SelectedCount(d.images, cap);
  }

  lemma AllSamplesStep(dirs: seq<ClassDir>, labelMap: map<string, int>, cap: int, i: int)
    requires ValidDirs(dirs) && 0 <= i < |dirs|
    ensures ValidDirs(dirs[i..]) && ValidDirs(dirs[i + 1..]) && ValidImages(dirs[i].images)
    ensures AllSamples(dirs[i..], labelMap, cap) == DirSamples(dirs[i], labelMap, cap) + AllSamples(dirs[i + 1..], labelMap, cap)
    ensures AllLabels(dirs[i..], labelMap, cap) == DirLabels(dirs[i], labelMap, cap) + AllLabels(dirs[i + 1..], labelMap, cap)
  {
    assert forall k :: 0 <= k < |dirs[i..]| ==> dirs[i..][k] == dirs[i + k];
    var tail := dirs[i + 1..];
    assert forall k :: 0 <= k < |tail| ==> tail[k] == dirs[i + 1 + k];
    assert dirs[i..][1..] == dirs[i + 1..];
  }

  /** The outer loop's progress: appending one entry's rows and labels. */
  lemma DirStep(dirs: seq<ClassDir>, labelMap: map<string, int>, cap: int, i: int,
                samples: seq<seq<real>>, labels: seq<int>, done: seq<seq<real>>, doneLabels: seq<int>)
    requires ValidDirs(dirs) && 0 <= i < |dirs|
    requires done + AllSamples(dirs[i..], labelMap, cap) == samples + AllSamples(dirs, labelMap, cap)
    requires doneLabels + AllLabels(dirs[i..], labelMap, cap) == labels + AllLabels(dirs, labelMap, cap)
    ensures ValidImages(dirs[i].images)
    ensures (done + DirSamples(dirs[i], labelMap, cap)) + AllSamples(dirs[i + 1..], labelMap, cap) ==
            samples + AllSamples(dirs, labelMap, cap)
    ensures (doneLabels + DirLabels(dirs[i], labelMap, cap)) + AllLabels(dirs[i + 1..], labelMap, cap) ==
            labels + AllLabels(dirs, labelMap, cap)
  {
    AllSamplesStep(dirs, labelMap, cap, i);
    Associative(done, DirSamples(dirs[i], labelMap, cap), AllSamples(dirs[i + 1..], labelMap, cap));
    Associative(doneLabels, DirLabels(dirs[i], labelMap, cap), AllLabels(dirs[i + 1..], labelMap, cap));
  }

  lemma Associative<T>(a: seq<T>, b: seq<T>, c: seq<T>)
    ensures (a + b) + c == a + (b + c)
  {
  }

  lemma SelectedStep(images: seq<Option<Image>>, cap: int, j: int)
    requires 0 <= j < |images| && cap > 0
    ensures Selected(images[j..], cap) ==
            if images[j].None? then Selected(images[j + 1..], cap)
            else [images[j].value] + Selected(images[j + 1..], cap - 1)
  {
    assert images[j..][1..] == images[j + 1..];
  }

  /** The inner loop's progress: what is kept so far followed by what the rest yields. */
  lemma KeepStep(images: seq<Option<Image>>, cap: int, kept: seq<Image>, j: int)
    requires 0 <= j < |images| && |kept| < cap
    requires kept + Selected(images[j..], cap - |kept|) == Selected(images, cap)
    ensures images[j].None? ==> kept + Selected(images[j + 1..], cap - |kept|) == Selected(images, cap)
    ensures images[j].Some? ==>
              (kept + [images[j].value]) + Selected(images[j + 1..], cap - |kept| - 1) == Selected(images, cap)
  {
    SelectedStep(images, cap - |kept|, j);
    if images[j].Some? {
      assert (kept + [images[j].value]) + Selected(images[j + 1..], cap - |kept| - 1) ==
             kept + ([images[j].value] + Selected(images[j + 1..], cap - |kept| - 1));
    }
  }

  lemma SamplesSnoc(kept: seq<Image>, img: Image)
    requires img.Valid() && forall k :: 0 <= k < |kept| ==> kept[k].Valid()
    ensures Samples(kept + [img]) == Samples(kept) + [Sample(img)]
  {
  }

  lemma LabelsSnoc(n: nat, id: int)
    ensures seq(n + 1, _ => id) == seq(n, _ => id) + [id]
  {
  }

  /**
   * The inner loop of loadDataset for one class: walk its entries in order,
   * stop once maxPerClass images are kept, skip unreadable entries without
   * counting them, and append each kept image with the class's label.
   */
  method AppendClass(images: seq<Option<Image>>, id: int, maxPerClass: int,
                     samples: seq<seq<real>>, labels: seq<int>)
    returns (samples': seq<seq<real>>, labels': seq<int>)
    requires ValidImages(images)
    ensures forall k :: 0 <= k < |Selected(images, maxPerClass)| ==> Selected(images, maxPerClass)[k].Valid()
    ensures samples' == samples + Samples(Selected(images, maxPerClass))
    ensures labels' == labels + seq(|Selected(images, maxPerClass)|, _ => id)
  {
    SelectedValid(images, maxPerClass);
    samples', labels' := samples, labels;
    ghost var kept: seq<Image> := [];
    var count := 0;
    var j := 0;
    while j < |images|
      invariant 0 <= j <= |images| && count == |kept|
      invariant forall k :: 0 <= k < |kept| ==> kept[k].Valid()
      invariant kept + Selected(images[j..], maxPerClass - count) == Selected(images, maxPerClass)
      invariant samples' == samples + Samples(kept)
      invariant labels' == labels + seq(|kept|, _ => id)
    {
      if count >= maxPerClass {
        break;
      }
      KeepStep(images, maxPerClass, kept, j);
      if images[j].None? {
        j := j + 1;
        continue;
      }
      var img := images[j].value;
      SamplesSnoc(kept, img);
      LabelsSnoc(|kept|, id);
      samples' := samples' + [Sample(img)];
      labels' := labels' + [id];
      kept := kept + [img];
      count := count + 1;
      j := j + 1;
    }
    assert Selected(images[j..], maxPerClass - count) == [];
    assert kept == Selected(images, maxPerClass);
  }

  /**
   * loadDataset: every entry that is a directory named in labelMap
   * contributes its kept images as binary float rows, each with the class's
   * label. Nothing already in samples or labels is removed.
   */
  method LoadDataset(dirs: seq<ClassDir>, labelMap: map<string, int>,
                     samples: seq<seq<real>>, labels: seq<int>, maxPerClass: int)
    returns (samples': seq<seq<real>>, labels': seq<int>)
    requires ValidDirs(dirs)
    ensures samples' == samples + AllSamples(dirs, labelMap, maxPerClass)
    ensures labels' == labels + AllLabels(dirs, labelMap, maxPerClass)
  {
    samples', labels' := samples, labels;
    for i := 0 to |dirs|
      invariant samples' + AllSamples(dirs[i..], labelMap, maxPerClass) == samples + AllSamples(dirs, labelMap, maxPerClass)
      invariant labels' + AllLabels(dirs[i..], labelMap, maxPerClass) == labels + AllLabels(dirs, labelMap, maxPerClass)
    {
      DirStep(dirs, labelMap, maxPerClass, i, samples, labels, samples', labels');
      var classDir := dirs[i];
      if !classDir.isDirectory || classDir.name !in labelMap {
        assert samples' + [] == samples' && labels' + [] == labels';
        continue;
      }
      samples', labels' := AppendClass(classDir.images, labelMap[classDir.name], maxPerClass, samples', labels');
    }
  }
}
