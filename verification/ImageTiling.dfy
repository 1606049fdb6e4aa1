// Choosing a tile grid for an image and cutting the resized image into tiles
// (benchmark/mmmu/internvl_utils.py). Ratios are exact.
module ImageTiling {
  import opened Options
  import opened Arithmetic
  import opened StableSort

  // Columns and rows of the grid.
  datatype Ratio = Ratio(cols: int, rows: int)

  function Blocks(r: Ratio): int { r.cols * r.rows }

  // ----- the candidate ratios -----

  // The comprehension over n, i and j.
  ghost predicate InTargets(r: Ratio, minNum: int, maxNum: int) {
    minNum <= Blocks(r) <= maxNum && exists n :: minNum <= n <= maxNum && WithinSide(r, n)
  }

  predicate WithinSide(r: Ratio, n: int) {
    1 <= r.cols <= n && 1 <= r.rows <= n
  }

  // The candidates are all grids whose number of tiles is within the bounds.
  lemma TargetsAreAllGrids(r: Ratio, minNum: int, maxNum: int)
    ensures InTargets(r, minNum, maxNum) <==> r.cols >= 1 && r.rows >= 1 && minNum <= Blocks(r) <= maxNum
  {
    if r.cols >= 1 && r.rows >= 1 && minNum <= Blocks(r) <= maxNum {
      MulMonotone(1, r.rows, r.cols);
      MulMonotone(1, r.cols, r.rows);
      assert WithinSide(r, maxNum);
    }
  }

  // Found by the comprehension before it comes to n.
  ghost predicate Seen(r: Ratio, minNum: int, maxNum: int, n: int) {
    minNum <= Blocks(r) <= maxNum && exists m :: minNum <= m < n && WithinSide(r, m)
  }

  lemma SeenNext(r: Ratio, minNum: int, maxNum: int, n: int)
    requires minNum <= n
    ensures Seen(r, minNum, maxNum, n + 1)
       <==> Seen(r, minNum, maxNum, n) || (minNum <= Blocks(r) <= maxNum && WithinSide(r, n))
  {
  }

  // One n: every pair i, j up to n with a permitted product is added.
  method AddSide(before: set<Ratio>, minNum: int, maxNum: int, n: int) returns (targets: set<Ratio>)
    ensures forall r :: r in targets <==> r in before || (minNum <= Blocks(r) <= maxNum && WithinSide(r, n))
  {
    targets := before;
    var i := 1;
    while i <= n
      invariant i >= 1 && (n >= 1 ==> i <= n + 1)
      invariant forall r :: r in targets <==>
                  r in before || (minNum <= Blocks(r) <= maxNum && 1 <= r.cols < i && 1 <= r.rows <= n)
    {
      var j := 1;
      while j <= n
        invariant 1 <= j <= n + 1
        invariant forall r :: r in targets <==>
                    || r in before
                    || (minNum <= Blocks(r) <= maxNum && 1 <= r.cols < i && 1 <= r.rows <= n)
                    || (minNum <= Blocks(r) <= maxNum && r.cols == i && 1 <= r.rows < j)
      {
        if i * j <= maxNum && i * j >= minNum {
          targets := targets + {Ratio(i, j)};
        }
        j := j + 1;
      }
      i := i + 1;
    }
  }

  method TargetRatios(minNum: int, maxNum: int) returns (rs: seq<Ratio>)
    ensures TargetList(rs, minNum, maxNum) && Positive(rs)
  {
    var targets: set<Ratio> := {};
    var n := minNum;
    while n <= maxNum
      invariant minNum <= n && (minNum <= maxNum ==> n <= maxNum + 1)
      invariant forall r :: r in targets <==> Seen(r, minNum, maxNum, n)
    {
      forall r ensures Seen(r, minNum, maxNum, n + 1)
                  <==> Seen(r, minNum, maxNum, n) || (minNum <= Blocks(r) <= maxNum && WithinSide(r, n))
      {
        SeenNext(r, minNum, maxNum, n);
      }
      targets := AddSide(targets, minNum, maxNum, n);
      n := n + 1;
    }
    assert forall r :: r in targets <==> InTargets(r, minNum, maxNum);
    rs := SortedByBlocks(targets);
    forall i | 0 <= i < |rs| ensures rs[i].cols >= 1 && rs[i].rows >= 1 {
      assert rs[i] in rs && InTargets(rs[i], minNum, maxNum);
    }
  }

  // sorted(targets, key=product), with the set listed in any order.
  method SortedByBlocks(targets: set<Ratio>) returns (rs: seq<Ratio>)
    ensures forall r :: r in rs <==> r in targets
    ensures forall i, j :: 0 <= i < j < |rs| ==> Blocks(rs[i]) <= Blocks(rs[j])
  {
    var list := [];
    var rest := targets;
    while rest != {}
      invariant forall r :: r in targets <==> r in list || r in rest
      decreases |rest|
    {
      var r :| r in rest;
      list := list + [r];
      rest := rest - {r};
    }
    rs := SortBy(list, Blocks);
    SortBySorts(list, Blocks);
    assert forall r :: r in rs <==> r in multiset(rs);
  }

  // sorted(target_ratios, key=product); ties in any order.
  ghost predicate TargetList(rs: seq<Ratio>, minNum: int, maxNum: int) {
    && (forall r :: r in rs <==> InTargets(r, minNum, maxNum))
    && (forall i, j :: 0 <= i < j < |rs| ==> Blocks(rs[i]) <= Blocks(rs[j]))
  }

  // ----- find_closest_aspect_ratio -----

  function Distance(aspect: real, r: Ratio): real
    requires r.rows != 0
  {
    var d := aspect - r.cols as real / r.rows as real;
    if d < 0.0 then -d else d
  }

  // The image is larger than half the area of the tiled grid.
  predicate LargeFor(area: int, imageSize: int, r: Ratio) {
    area as real > 0.5 * imageSize as real * imageSize as real * r.cols as real * r.rows as real
  }

  // The image has more than half the pixels of the grid's.
  lemma LargeForIff(area: int, imageSize: int, r: Ratio)
    ensures LargeFor(area, imageSize, r) <==> 2 * area > imageSize * r.cols * (imageSize * r.rows)
  {
    var pixels := imageSize * r.cols * (imageSize * r.rows);
    var half := 0.5 * imageSize as real * imageSize as real * r.cols as real * r.rows as real;
    PixelsAsReal(imageSize, r.cols, r.rows);
    assert 2.0 * half == pixels as real;
  }

  lemma PixelsAsReal(size: int, cols: int, rows: int)
    ensures (size * cols * (size * rows)) as real
         == 2.0 * (0.5 * size as real * size as real * cols as real * rows as real)
  {
    var s, c, w := size as real, cols as real, rows as real;
    assert (size * cols) as real == s * c && (size * rows) as real == s * w;
    assert (size * cols * (size * rows)) as real == (size * cols) as real * (size * rows) as real;
    Regroup(s, c, w);
  }

  lemma Regroup(s: real, c: real, w: real)
    ensures s * c * (s * w) == 2.0 * (0.5 * s * s * c * w)
  {
    assert 2.0 * (0.5 * s * s * c * w) == s * s * c * w;
  }

  // The distance is within d exactly when the grid's columns are within d
  // times its rows of the exact number for the aspect ratio.
  lemma DistanceIff(aspect: real, r: Ratio, d: real)
    requires r.rows > 0
    ensures Distance(aspect, r) <= d
       <==> (aspect - d) * r.rows as real <= r.cols as real <= (aspect + d) * r.rows as real
  {
    var c, w := r.cols as real, r.rows as real;
    var q := c / w;
    assert q * w == c;
    ScaleLess(aspect - d, q, w);
    ScaleLess(q, aspect + d, w);
  }

  lemma ScaleLess(a: real, b: real, w: real)
    requires w > 0.0
    ensures a <= b <==> a * w <= b * w
  {
    if a <= b {
      assert (b - a) * w >= 0.0;
    } else {
      assert (a - b) * w > 0.0;
    }
  }

  ghost predicate Positive(rs: seq<Ratio>) {
    forall i :: 0 <= i < |rs| ==> rs[i].cols >= 1 && rs[i].rows >= 1
  }

  // rs[b] is closest; of the closest ones it is the last for which the image
  // is large enough, or the first if there is no later such.
  ghost predicate Closest(rs: seq<Ratio>, aspect: real, area: int, imageSize: int, b: int)
    requires Positive(rs)
  {
    && 0 <= b < |rs|
    && (forall i :: 0 <= i < |rs| ==> Distance(aspect, rs[b]) <= Distance(aspect, rs[i]))
    && (forall i :: b < i < |rs| && Distance(aspect, rs[i]) == Distance(aspect, rs[b]) ==> !LargeFor(area, imageSize, rs[i]))
    && (LargeFor(area, imageSize, rs[b]) || forall i :: 0 <= i < b ==> Distance(aspect, rs[b]) < Distance(aspect, rs[i]))
  }

  method FindClosestAspectRatio(aspect: real, rs: seq<Ratio>, width: int, height: int, imageSize: int) returns (best: Ratio)
    requires Positive(rs)
    ensures rs == [] ==> best == Ratio(1, 1)
    ensures rs != [] ==> exists b :: Closest(rs, aspect, width * height, imageSize, b) && best == rs[b]
  {
    best := Ratio(1, 1);
    var bestDiff := 0.0;
    var found := false;  // false stands for a best difference of infinity
    var area := width * height;
    ghost var b := 0;
    for k := 0 to |rs|
      invariant found <==> k > 0
      invariant !found ==> best == Ratio(1, 1)
      invariant found ==> Closest(rs[..k], aspect, area, imageSize, b) && best == rs[b] && bestDiff == Distance(aspect, rs[b])
    {
      var diff := Distance(aspect, rs[k]);
      if !found || diff < bestDiff {
        bestDiff, best, found, b := diff, rs[k], true, k;
      } else if diff == bestDiff {
        if LargeFor(area, imageSize, rs[k]) {
          best, b := rs[k], k;
        }
      }
      assert forall i :: 0 <= i <= k ==> rs[..k + 1][i] == rs[i];
    }
    assert rs[..|rs|] == rs;
  }

  lemma ClosestUnique(rs: seq<Ratio>, aspect: real, area: int, imageSize: int, b: int, b': int)
    requires Positive(rs) && Closest(rs, aspect, area, imageSize, b) && Closest(rs, aspect, area, imageSize, b')
    ensures b == b'
  {
  }

  // Over every grid with a permitted number of tiles, the choice is closest in
  // aspect ratio. The image is too small for every equally close grid with
  // more tiles; and when it is too small for the choice as well, no equally
  // close grid has fewer tiles.
  lemma BestGrid(rs: seq<Ratio>, minNum: int, maxNum: int, aspect: real, area: int, imageSize: int, b: int, r: Ratio)
    requires TargetList(rs, minNum, maxNum) && Positive(rs) && Closest(rs, aspect, area, imageSize, b)
    requires r.cols >= 1 && r.rows >= 1 && minNum <= Blocks(r) <= maxNum
    ensures minNum <= Blocks(rs[b]) <= maxNum
    ensures Distance(aspect, rs[b]) <= Distance(aspect, r)
    ensures Distance(aspect, r) == Distance(aspect, rs[b]) && Blocks(r) > Blocks(rs[b]) ==> !LargeFor(area, imageSize, r)
    ensures Distance(aspect, r) == Distance(aspect, rs[b]) && !LargeFor(area, imageSize, rs[b]) ==> Blocks(rs[b]) <= Blocks(r)
  {
    TargetsAreAllGrids(r, minNum, maxNum);
    assert r in rs;
    var i :| 0 <= i < |rs| && rs[i] == r;
    assert rs[b] in rs;
  }

  ghost predicate Permitted(r: Ratio, minNum: int, maxNum: int) {
    r.cols >= 1 && r.rows >= 1 && minNum <= Blocks(r) <= maxNum
  }

  // What BestGrid says of the chosen grid, against every permitted one.
  ghost predicate Best(best: Ratio, minNum: int, maxNum: int, aspect: real, area: int, imageSize: int) {
    Permitted(best, minNum, maxNum)
    && forall r :: Permitted(r, minNum, maxNum) ==>
         var d, d' := Distance(aspect, best), Distance(aspect, r);
         && d <= d'
         && (d' == d && Blocks(r) > Blocks(best) ==> !LargeFor(area, imageSize, r))
         && (d' == d && !LargeFor(area, imageSize, best) ==> Blocks(best) <= Blocks(r))
  }

  // ----- cutting into tiles -----

  datatype Box = Box(left: int, top: int, right: int, bottom: int)

  function BoxAt(i: nat, cols: nat, size: nat): Box
    requires cols > 0
  {
    Box(i % cols * size, i / cols * size, (i % cols + 1) * size, (i / cols + 1) * size)
  }

  method CropBoxes(r: Ratio, imageSize: nat) returns (boxes: seq<Box>)
    requires r.cols >= 1 && r.rows >= 1 && imageSize >= 1
    ensures |boxes| == Blocks(r)
    ensures forall i :: 0 <= i < |boxes| ==> boxes[i] == BoxAt(i, r.cols, imageSize)
  {
    var targetWidth := imageSize * r.cols;
    var blocks := r.cols * r.rows;
    WholeTiles(imageSize, r.cols);
    assert blocks >= 0;
    boxes := [];
    for i := 0 to blocks
      invariant |boxes| == i && forall k :: 0 <= k < i ==> boxes[k] == BoxAt(k, r.cols, imageSize)
    {
      var perRow := targetWidth / imageSize;
      boxes := boxes + [Box((i % perRow) * imageSize, (i / perRow) * imageSize,
                            ((i % perRow) + 1) * imageSize, ((i / perRow) + 1) * imageSize)];
    }
  }

  lemma WholeTiles(size: nat, cols: nat)
    requires size >= 1
    ensures size * cols / size == cols
  {
    DivIs(size * cols, size, cols, 0);
  }

  predicate Inside(x: int, y: int, b: Box) {
    b.left <= x < b.right && b.top <= y < b.bottom
  }

  // Tile i covers a pixel exactly when it is the tile in the pixel's column
  // and row: every pixel of the resized image is in exactly one tile.
  lemma OneTilePerPixel(r: Ratio, size: nat, x: int, y: int, i: nat)
    requires r.cols >= 1 && r.rows >= 1 && size >= 1 && i < Blocks(r)
    requires 0 <= x < size * r.cols && 0 <= y < size * r.rows
    ensures var tile := y / size * r.cols + x / size;
            0 <= tile < Blocks(r) && (Inside(x, y, BoxAt(i, r.cols, size)) <==> i == tile)
  {
    var col, row := x / size, y / size;
    QuotientBelow(x, size, r.cols);
    QuotientBelow(y, size, r.rows);
    Stretch(x, size, i % r.cols);
    Stretch(y, size, i / r.cols);
    TileIndex(r, col, row, i);
  }

  lemma TileIndex(r: Ratio, col: int, row: int, i: nat)
    requires 0 <= col < r.cols && 0 <= row < r.rows
    ensures 0 <= row * r.cols + col < Blocks(r)
    ensures i % r.cols == col && i / r.cols == row <==> i == row * r.cols + col
  {
    MulMonotone(0, row, r.cols);
    MulMonotone(row + 1, r.rows, r.cols);
    assert (row + 1) * r.cols == row * r.cols + r.cols;
    DivIs(row * r.cols + col, r.cols, row, col);
    DivMod(i, r.cols);
  }

  // Every tile lies within the resized image.
  lemma TilesInBounds(r: Ratio, size: nat, i: nat)
    requires r.cols >= 1 && r.rows >= 1 && size >= 1 && i < Blocks(r)
    ensures var b := BoxAt(i, r.cols, size);
            && 0 <= b.left < b.right <= size * r.cols && 0 <= b.top < b.bottom <= size * r.rows
            && b.right - b.left == size && b.bottom - b.top == size
  {
    var col, row := i % r.cols, i / r.cols;
    QuotientBelow(i, r.cols, r.rows);
    DivMod(i, r.cols);
    MulMonotone(0, col, size);
    MulMonotone(0, row, size);
    MulMonotone(col + 1, r.cols, size);
    MulMonotone(row + 1, r.rows, size);
    Widen(col, size);
    Widen(row, size);
  }

  lemma Widen(k: int, size: int)
    ensures (k + 1) * size == k * size + size
  {
  }

  // ----- dynamic_preprocess -----

  // The grid, the boxes cut out of the resized image, and whether a thumbnail
  // of the whole image follows them.
  datatype Tiling = Tiling(ratio: Ratio, boxes: seq<Box>, thumbnail: bool)

  lemma GridExists(minNum: int, maxNum: int)
    ensures (exists r :: Permitted(r, minNum, maxNum)) <==> minNum <= maxNum && 1 <= maxNum
  {
    if minNum <= maxNum && 1 <= maxNum {
      assert Permitted(Ratio(if minNum < 1 then 1 else minNum, 1), minNum, maxNum);
    }
    forall r | Permitted(r, minNum, maxNum) ensures 1 <= maxNum {
      MulMonotone(1, r.cols, r.rows);
    }
  }

  lemma ChosenBest(rs: seq<Ratio>, minNum: int, maxNum: int, aspect: real, area: int, imageSize: int, b: int)
    requires TargetList(rs, minNum, maxNum) && Positive(rs) && Closest(rs, aspect, area, imageSize, b)
    ensures Best(rs[b], minNum, maxNum, aspect, area, imageSize)
  {
    assert rs[b] in rs;
    TargetsAreAllGrids(rs[b], minNum, maxNum);
    forall r | Permitted(r, minNum, maxNum)
      ensures var d, d' := Distance(aspect, rs[b]), Distance(aspect, r);
              && d <= d'
              && (d' == d && Blocks(r) > Blocks(rs[b]) ==> !LargeFor(area, imageSize, r))
              && (d' == d && !LargeFor(area, imageSize, rs[b]) ==> Blocks(rs[b]) <= Blocks(r))
    {
      BestGrid(rs, minNum, maxNum, aspect, area, imageSize, b, r);
    }
  }

  // None is a division by zero, or a resize to nothing. Otherwise the image is
  // cut by the best permitted grid, so that the number of boxes is within the
  // bounds whenever some grid is; else it is cut into one.
  method DynamicPreprocess(width: nat, height: nat, minNum: int, maxNum: int, imageSize: nat, useThumbnail: bool)
    returns (t: Option<Tiling>)
    ensures t.None? <==> height == 0 || imageSize == 0
    ensures t.Some? && minNum <= maxNum && 1 <= maxNum ==>
              && minNum <= |t.value.boxes| <= maxNum
              && Best(t.value.ratio, minNum, maxNum, width as real / height as real, width * height, imageSize)
    ensures t.Some? && !(minNum <= maxNum && 1 <= maxNum) ==> t.value.ratio == Ratio(1, 1) && |t.value.boxes| == 1
    ensures t.Some? ==>
              && t.value.ratio.cols >= 1 && |t.value.boxes| == Blocks(t.value.ratio)
              && (forall i :: 0 <= i < |t.value.boxes| ==> t.value.boxes[i] == BoxAt(i, t.value.ratio.cols, imageSize))
              && (t.value.thumbnail <==> useThumbnail && |t.value.boxes| != 1)
  {
    if height == 0 || imageSize == 0 {
      return None;
    }
    var aspect := width as real / height as real;
    var rs := TargetRatios(minNum, maxNum);
    var ratio := FindClosestAspectRatio(aspect, rs, width, height, imageSize);
    GridExists(minNum, maxNum);
    if rs != [] {
      ghost var b :| Closest(rs, aspect, width * height, imageSize, b) && ratio == rs[b];
      ChosenBest(rs, minNum, maxNum, aspect, width * height, imageSize, b);
    }
    NoneListed(rs, minNum, maxNum);
    var boxes := CropBoxes(ratio, imageSize);
    t := Some(Tiling(ratio, boxes, useThumbnail && |boxes| != 1));
  }

  lemma NoneListed(rs: seq<Ratio>, minNum: int, maxNum: int)
    requires TargetList(rs, minNum, maxNum)
    ensures rs == [] <==> !exists r :: Permitted(r, minNum, maxNum)
  {
    if rs != [] {
      assert rs[0] in rs;
      TargetsAreAllGrids(rs[0], minNum, maxNum);
      assert Permitted(rs[0], minNum, maxNum);
    }
    forall r | Permitted(r, minNum, maxNum) ensures rs != [] {
      TargetsAreAllGrids(r, minNum, maxNum);
      assert r in rs;
    }
  }
}
