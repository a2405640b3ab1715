/**
 * Plate-candidate ranking of PlateLocator::locatePlates.
 *
 * The contours of the preprocessed mask and the number of nonzero mask pixels
 * inside each bounding rectangle are inputs (they come from findContours,
 * boundingRect and countNonZero). The ratios the source computes in `float`
 * are exact `real` quotients here.
 */
module PlateLocator {

  /** An axis-aligned rectangle, as cv::Rect. */
  datatype Rect = Rect(x: int, y: int, width: nat, height: nat)

  /** One external contour: its bounding rectangle and the nonzero pixels inside it. */
  datatype Contour = Contour(bounds: Rect, nonzero: nat)

  /** The thresholds of locatePlates. */
  datatype Config = Config(
    minAspectRatio: real,
    maxAspectRatio: real,
    targetAspectRatio: real,
    minRectAreaRatio: real,
    maxRectAreaRatio: real,
    minFillRatio: real,
    remain: int)

  /** The default arguments declared in the header. */
  const Defaults: Config := Config(2.1, 4.2, 3.14, 0.005, 0.5, 0.5, 3)

  /** A bounding rectangle of a contour of a cols x rows mask lies inside the mask. */
  predicate InMask(r: Rect, cols: nat, rows: nat)
  {
    0 <= r.x && 0 <= r.y && r.x + r.width <= cols && r.y + r.height <= rows
  }

  function AspectRatio(r: Rect): real
    requires r.height > 0
  {
    r.width as real / r.height as real
  }

  /** How far the shape of `r` is from the target aspect ratio: the sort key. */
  function Distance(r: Rect, target: real): real
    requires r.height > 0
  {
    var d := AspectRatio(r) - target;
    if d < 0.0 then -d else d
  }

  function AreaRatio(r: Rect, cols: nat, rows: nat): real
    requires cols > 0 && rows > 0
  {
    (r.width * r.height) as real / (cols * rows) as real
  }

  function FillRatio(c: Contour): real
    requires c.bounds.width > 0 && c.bounds.height > 0
  {
    c.nonzero as real / (c.bounds.width * c.bounds.height) as real
  }

  /** The four rejection tests of the candidate loop; a contour that passes them all is kept. */
  predicate Accepted(c: Contour, cfg: Config, cols: nat, rows: nat)
    requires InMask(c.bounds, cols, rows)
  {
    var r := c.bounds;
    && r.width != 0 && r.height != 0
    && !(AspectRatio(r) < cfg.minAspectRatio || AspectRatio(r) > cfg.maxAspectRatio)
    && !(AreaRatio(r, cols, rows) < cfg.minRectAreaRatio || AreaRatio(r, cols, rows) > cfg.maxRectAreaRatio)
    && !(FillRatio(c) < cfg.minFillRatio)
  }

  predicate AllInMask(contours: seq<Contour>, cols: nat, rows: nat)
  {
    forall i :: 0 <= i < |contours| ==> InMask(contours[i].bounds, cols, rows)
  }

  /** The bounding rectangles of the accepted contours, in contour order. */
  function Survivors(contours: seq<Contour>, cfg: Config, cols: nat, rows: nat): seq<Rect>
    requires AllInMask(contours, cols, rows)
  {
    if contours == [] then []
    else
      var last := contours[|contours| - 1];
      Survivors(contours[..|contours| - 1], cfg, cols, rows)
        + (if Accepted(last, cfg, cols, rows) then [last.bounds] else [])
  }

  predicate Positive(s: seq<Rect>)
  {
    forall i :: 0 <= i < |s| ==> s[i].height > 0
  }

  predicate SortedByDistance(s: seq<Rect>, target: real)
    requires Positive(s)
  {
    forall i, j :: 0 <= i < j < |s| ==> Distance(s[i], target) <= Distance(s[j], target)
  }

  /** How many survivors locatePlates keeps: a negative `remain`, converted to size_t, never truncates. */
  function Kept(survivors: nat, remain: int): nat
  {
    if 0 <= remain < survivors then remain else survivors
  }

  /**
   * `plates` is a valid outcome of ranking `pool`: drawn from the pool without
   * invention, of the promised length, ordered by distance to the target, and
   * no dropped rectangle is closer to the target than a kept one.
   */
  ghost predicate IsRanking(pool: seq<Rect>, remain: int, target: real, plates: seq<Rect>)
    requires Positive(pool)
  {
    && multiset(plates) <= multiset(pool)
    && |plates| == Kept(|pool|, remain)
    && Positive(plates)
    && SortedByDistance(plates, target)
    && forall a, b :: a in plates && b in multiset(pool) - multiset(plates) ==>
         Distance(a, target) <= Distance(b, target)
  }

  lemma AllInMaskPrefix(contours: seq<Contour>, n: nat, cols: nat, rows: nat)
    requires AllInMask(contours, cols, rows) && n <= |contours|
    ensures AllInMask(contours[..n], cols, rows)
  {
    forall i | 0 <= i < n ensures InMask(contours[..n][i].bounds, cols, rows) {
      assert contours[..n][i] == contours[i];
    }
  }

  /** Every survivor is the bounding rectangle of an accepted contour of the input. */
  lemma {:induction false} SurvivorsAccepted(contours: seq<Contour>, cfg: Config, cols: nat, rows: nat)
    requires AllInMask(contours, cols, rows)
    ensures forall r :: r in Survivors(contours, cfg, cols, rows) ==>
              exists i :: 0 <= i < |contours| && contours[i].bounds == r
                && Accepted(contours[i], cfg, cols, rows)
  {
    if contours != [] {
      var init := contours[..|contours| - 1];
      AllInMaskPrefix(contours, |contours| - 1, cols, rows);
      SurvivorsAccepted(init, cfg, cols, rows);
      forall r | r in Survivors(contours, cfg, cols, rows)
        ensures exists i :: 0 <= i < |contours| && contours[i].bounds == r
                  && Accepted(contours[i], cfg, cols, rows)
      {
        if r in Survivors(init, cfg, cols, rows) {
          var i :| 0 <= i < |init| && init[i].bounds == r && Accepted(init[i], cfg, cols, rows);
          assert contours[i] == init[i];
        } else {
          assert contours[|contours| - 1].bounds == r;
        }
      }
    }
  }

  /** Survivors have a nonzero height, so their aspect ratio is defined. */
  lemma {:induction false} SurvivorsPositive(contours: seq<Contour>, cfg: Config, cols: nat, rows: nat)
    requires AllInMask(contours, cols, rows)
    ensures Positive(Survivors(contours, cfg, cols, rows))
  {
    if contours != [] {
      AllInMaskPrefix(contours, |contours| - 1, cols, rows);
      SurvivorsPositive(contours[..|contours| - 1], cfg, cols, rows);
    }
  }

  /** The survivors are a sub-multiset of the input's bounding rectangles. */
  lemma {:induction false} SurvivorsSubMultiset(contours: seq<Contour>, cfg: Config, cols: nat, rows: nat)
    requires AllInMask(contours, cols, rows)
    ensures multiset(Survivors(contours, cfg, cols, rows)) <= multiset(Bounds(contours))
  {
    if contours != [] {
      var init := contours[..|contours| - 1];
      var last := contours[|contours| - 1];
      AllInMaskPrefix(contours, |contours| - 1, cols, rows);
      SurvivorsSubMultiset(init, cfg, cols, rows);
      assert contours == init + [last];
      BoundsAppend(init, last);
    }
  }

  /** The bounding rectangles of all contours, in order. */
  function Bounds(contours: seq<Contour>): (r: seq<Rect>)
    ensures |r| == |contours|
    ensures forall i :: 0 <= i < |r| ==> r[i] == contours[i].bounds
  {
    seq(|contours|, i requires 0 <= i < |contours| => contours[i].bounds)
  }

  lemma BoundsAppend(init: seq<Contour>, last: Contour)
    ensures Bounds(init + [last]) == Bounds(init) + [last.bounds]
  {
  }

  predicate SortedBy<T>(t: seq<T>, key: T -> real)
  {
    forall i, j :: 0 <= i < j < |t| ==> key(t[i]) <= key(t[j])
  }

  /** Inserting x at a position j where everything before is no greater and t[j] is greater keeps t sorted. */
  lemma InsertSorted<T>(t: seq<T>, x: T, j: nat, key: T -> real)
    requires SortedBy(t, key) && j <= |t|
    requires forall k :: 0 <= k < j ==> key(t[k]) <= key(x)
    requires j < |t| ==> key(x) < key(t[j])
    ensures SortedBy(t[..j] + [x] + t[j..], key)
  {
    var t' := t[..j] + [x] + t[j..];
    assert forall k :: 0 <= k < j ==> t'[k] == t[k];
    assert forall k :: j < k < |t'| ==> t'[k] == t[k - 1];
    forall a, b | 0 <= a < b < |t'| ensures key(t'[a]) <= key(t'[b]) {
      if a == j && b > j {
        assert key(t[j]) <= key(t[b - 1]);
      }
    }
  }

  lemma InsertMultiset<T>(t: seq<T>, x: T, j: nat)
    requires j <= |t|
    ensures multiset(t[..j] + [x] + t[j..]) == multiset(t) + multiset{x}
  {
    assert t == t[..j] + t[j..];
  }

  /** Inserts x into a sorted sequence after every element whose key is no greater. */
  method InsertByKey<T>(t: seq<T>, x: T, key: T -> real) returns (t': seq<T>)
    requires SortedBy(t, key)
    ensures SortedBy(t', key)
    ensures multiset(t') == multiset(t) + multiset{x}
  {
    var j := 0;
    while j < |t| && key(t[j]) <= key(x)
      invariant 0 <= j <= |t|
      invariant forall k :: 0 <= k < j ==> key(t[k]) <= key(x)
    {
      j := j + 1;
    }
    InsertSorted(t, x, j, key);
    InsertMultiset(t, x, j);
    t' := t[..j] + [x] + t[j..];
  }

  /**
   * Orders a sequence by a real key, as the std::sort call does with its
   * comparator; elements with equal keys end up in any order.
   */
  method SortByKey<T>(s: seq<T>, key: T -> real) returns (t: seq<T>)
    ensures multiset(t) == multiset(s)
    ensures SortedBy(t, key)
  {
    t := [];
    var i := 0;
    while i < |s|
      invariant 0 <= i <= |s|
      invariant multiset(t) == multiset(s[..i])
      invariant SortedBy(t, key)
    {
      assert s[..i + 1] == s[..i] + [s[i]];
      t := InsertByKey(t, s[i], key);
      i := i + 1;
    }
    assert s[..i] == s;
  }

  /** The comparator key of locatePlates, total so that it can be passed to SortByKey. */
  function SortKey(r: Rect, target: real): real
  {
    if r.height > 0 then Distance(r, target) else 0.0
  }

  lemma PermutationPositive(pool: seq<Rect>, sorted: seq<Rect>)
    requires Positive(pool) && multiset(sorted) == multiset(pool)
    ensures |sorted| == |pool| && Positive(sorted)
  {
    assert |multiset(sorted)| == |multiset(pool)|;
    forall i | 0 <= i < |sorted| ensures sorted[i].height > 0 {
      assert sorted[i] in multiset(pool);
    }
  }

  lemma SortedPrefix(sorted: seq<Rect>, n: nat, target: real)
    requires Positive(sorted) && n <= |sorted|
    requires SortedBy(sorted, r => SortKey(r, target))
    ensures Positive(sorted[..n]) && SortedByDistance(sorted[..n], target)
  {
    var plates := sorted[..n];
    forall i, j | 0 <= i < j < |plates|
      ensures Distance(plates[i], target) <= Distance(plates[j], target)
    {
      assert plates[i] == sorted[i] && plates[j] == sorted[j];
      assert SortKey(sorted[i], target) <= SortKey(sorted[j], target);
    }
  }

  lemma DroppedFarther(pool: seq<Rect>, sorted: seq<Rect>, n: nat, target: real)
    requires Positive(pool) && Positive(sorted) && n <= |sorted|
    requires multiset(sorted) == multiset(pool)
    requires SortedBy(sorted, r => SortKey(r, target))
    ensures multiset(sorted[..n]) <= multiset(pool)
    ensures forall a, b :: a in sorted[..n] && b in multiset(pool) - multiset(sorted[..n]) ==>
              Distance(a, target) <= Distance(b, target)
  {
    var plates := sorted[..n];
    assert sorted == plates + sorted[n..];
    assert multiset(sorted) == multiset(plates) + multiset(sorted[n..]);
    forall a, b | a in plates && b in multiset(pool) - multiset(plates)
      ensures Distance(a, target) <= Distance(b, target)
    {
      var ia :| 0 <= ia < n && plates[ia] == a;
      assert b in sorted[n..];
      var ib :| n <= ib < |sorted| && sorted[ib] == b;
      assert sorted[ia] == a;
      assert SortKey(sorted[ia], target) <= SortKey(sorted[ib], target);
    }
  }

  /** Keeping the first Kept(|pool|, remain) rectangles of a sorted permutation of the pool is a ranking. */
  lemma TruncateIsRanking(pool: seq<Rect>, sorted: seq<Rect>, remain: int, target: real)
    requires Positive(pool) && |sorted| == |pool|
    requires multiset(sorted) == multiset(pool)
    requires SortedBy(sorted, r => SortKey(r, target))
    ensures IsRanking(pool, remain, target, sorted[..Kept(|pool|, remain)])
  {
    var n := Kept(|pool|, remain);
    PermutationPositive(pool, sorted);
    SortedPrefix(sorted, n, target);
    DroppedFarther(pool, sorted, n, target);
  }

  /**
   * locatePlates: keep the contours that pass the four tests, sort them by
   * distance to the target aspect ratio and keep the first `remain` of them.
   */
  method LocatePlates(contours: seq<Contour>, cols: nat, rows: nat, cfg: Config)
    returns (plates: seq<Rect>)
    requires AllInMask(contours, cols, rows)
    ensures Positive(Survivors(contours, cfg, cols, rows))
    ensures IsRanking(Survivors(contours, cfg, cols, rows), cfg.remain, cfg.targetAspectRatio, plates)
    ensures forall r :: r in plates ==>
              exists i :: 0 <= i < |contours| && contours[i].bounds == r
                && Accepted(contours[i], cfg, cols, rows)
  {
    var plateRects: seq<Rect> := [];
    var i := 0;
    while i < |contours|
      invariant 0 <= i <= |contours|
      invariant plateRects == Survivors(contours[..i], cfg, cols, rows)
    {
      AllInMaskPrefix(contours, i + 1, cols, rows);
      var c := contours[i];
      var w, h := c.bounds.width, c.bounds.height;
      assert contours[..i + 1][..i] == contours[..i];
      if w == 0 || h == 0 {
      } else if AspectRatio(c.bounds) < cfg.minAspectRatio || AspectRatio(c.bounds) > cfg.maxAspectRatio {
      } else if AreaRatio(c.bounds, cols, rows) < cfg.minRectAreaRatio
             || AreaRatio(c.bounds, cols, rows) > cfg.maxRectAreaRatio {
      } else if FillRatio(c) < cfg.minFillRatio {
      } else {
        plateRects := plateRects + [c.bounds];
      }
      i := i + 1;
    }
    assert contours[..i] == contours;
    ghost var pool := plateRects;
    SurvivorsPositive(contours, cfg, cols, rows);
    var sorted := SortByKey(plateRects, r => SortKey(r, cfg.targetAspectRatio));
    plates := sorted;
    if cfg.remain >= 0 && |sorted| > cfg.remain {
      plates := sorted[..cfg.remain];
    }
    PermutationPositive(pool, sorted);
    assert plates == sorted[..Kept(|pool|, cfg.remain)];
    TruncateIsRanking(pool, sorted, cfg.remain, cfg.targetAspectRatio);
    SurvivorsAccepted(contours, cfg, cols, rows);
    forall r | r in plates ensures r in pool {
      assert r in multiset(plates);
    }
  }

  /**
   * With the default thresholds, a mask holding one solid 314 x 100 rectangle
   * (aspect ratio 3.14, fill ratio 1, 5% of a 1000 x 628 mask), a square blob
   * and a degenerate zero-width contour yields exactly that rectangle.
   */
  lemma SinglePlateScenario(plates: seq<Rect>)
    requires AllInMask(ScenarioContours(), 1000, 628)
    requires Positive(Survivors(ScenarioContours(), Defaults, 1000, 628))
    requires IsRanking(Survivors(ScenarioContours(), Defaults, 1000, 628),
                       Defaults.remain, Defaults.targetAspectRatio, plates)
    ensures plates == [Rect(100, 200, 314, 100)]
  {
    var cs := ScenarioContours();
    var plate := Rect(100, 200, 314, 100);
    assert cs[..2][..1] == [cs[0]] && cs[..1][..0] == [];
    assert cs[..|cs| - 1] == cs[..2];
    assert cs[..2][..|cs[..2]| - 1] == cs[..1];
    AllInMaskPrefix(cs, 1, 1000, 628);
    AllInMaskPrefix(cs, 2, 1000, 628);
    assert !Accepted(cs[0], Defaults, 1000, 628);
    assert Survivors(cs[..1], Defaults, 1000, 628) == [];
    assert Accepted(cs[1], Defaults, 1000, 628);
    assert Survivors(cs[..2], Defaults, 1000, 628) == [plate];
    assert !Accepted(cs[2], Defaults, 1000, 628);
    assert Survivors(cs, Defaults, 1000, 628) == [plate];
    assert |plates| == 1;
    assert plates[0] in multiset([plate]);
  }

  function ScenarioContours(): seq<Contour>
  {
    [Contour(Rect(600, 400, 50, 50), 2500),
     Contour(Rect(100, 200, 314, 100), 31400),
     Contour(Rect(0, 0, 0, 5), 0)]
  }
}
