/** The whitespace crop of getformula.py: a rasterised page is scanned for the
    positions of all pixels that are not pure white, and the box handed to
    Pillow's crop is (min x, min y, max x, max y) of those positions. */
module Cropping {
  import opened Wrappers

  /** An RGB pixel as Pillow's getdata() yields it for an RGB image. */
  type Rgb = (int, int, int)

  const White: Rgb := (255, 255, 255)

  /** A rasterised page: its size and its pixels in row-major order. */
  datatype Page = Page(width: nat, height: nat, pixels: seq<Rgb>) {
    /** getdata() holds exactly one pixel per position of the page. */
    predicate Valid() {
      |pixels| == Times(height, width)
    }
  }

  /** A box as a 4-tuple (left, top, right, bottom). */
  datatype Box = Box(left: int, top: int, right: int, bottom: int)

  predicate InPage(p: Page, x: int, y: int) {
    0 <= x < p.width && 0 <= y < p.height
  }

  /** n rows of w pixels, n*w, by repeated addition. The page's size and its
      flat pixel index are written with Times rather than `*` so that facts
      about pages stay within linear arithmetic, where the solver decides them
      quickly; TimesIsProduct shows the two agree, and Pixel states its index
      with `*`. */
  function Times(n: nat, w: nat): nat {
    if n == 0 then 0 else Times(n - 1, w) + w
  }

  lemma {:induction false} TimesIsProduct(n: nat, w: nat)
    ensures Times(n, w) == n * w
  {
    if n > 0 {
      TimesIsProduct(n - 1, w);
      assert (n - 1) * w + w == n * w;
    }
  }

  /** Row-major layout: position (x, y) of a width-w, height-h page is stored at
      x + y*w, which lies inside the w*h pixels. */
  lemma {:induction false} FlatIndexInBounds(w: nat, h: nat, x: nat, y: nat)
    requires x < w && y < h
    ensures x + Times(y, w) < Times(h, w)
  {
    if y < h - 1 {
      FlatIndexInBounds(w, h - 1, x, y);
    }
  }

  /** Row-major layout stores distinct positions at distinct indices. */
  lemma FlatIndexInjective(w: nat, x1: nat, y1: nat, x2: nat, y2: nat)
    requires x1 < w && x2 < w
    requires x1 + Times(y1, w) == x2 + Times(y2, w)
    ensures x1 == x2 && y1 == y2
  {
  }

  /** The pixel at (x, y), read as page.getdata()[x + y*width]. */
  function Pixel(p: Page, x: int, y: int): (px: Rgb)
    requires p.Valid() && InPage(p, x, y)
    ensures 0 <= x + y * p.width < |p.pixels| && px == p.pixels[x + y * p.width]
  {
    FlatIndexInBounds(p.width, p.height, x, y);
    TimesIsProduct(y, p.width);
    p.pixels[x + Times(y, p.width)]
  }

  /** The filter of the comprehension: getdata()[x + y*width] != (255, 255, 255). */
  predicate NonWhite(p: Page, x: int, y: int): (b: bool)
    requires p.Valid() && InPage(p, x, y)
    ensures 0 <= x + Times(y, p.width) < |p.pixels|
    ensures b <==> p.pixels[x + Times(y, p.width)] != (255, 255, 255)
  {
    FlatIndexInBounds(p.width, p.height, x, y);
    TimesIsProduct(y, p.width);
    Pixel(p, x, y) != White
  }

  /** The filtered comprehension over one column x: the non-white positions
      (x, y') with y <= y' < height, in increasing y. */
  function Column(p: Page, x: int, y: nat): seq<(int, int)>
    requires p.Valid() && 0 <= x < p.width && y <= p.height
    decreases p.height - y
  {
    if y == p.height then []
    else (if NonWhite(p, x, y) then [(x, y)] else []) + Column(p, x, y + 1)
  }

  /** The comprehension over the columns x' with x <= x' < width, x outermost. */
  function Columns(p: Page, x: nat): seq<(int, int)>
    requires p.Valid() && x <= p.width
    decreases p.width - x
  {
    if x == p.width then [] else Column(p, x, 0) + Columns(p, x + 1)
  }

  /** nonwhite_positions: every (x, y) with x in range(width), y in range(height)
      and a pixel other than (255, 255, 255). The list is in the comprehension's
      order, x outermost, so no position appears twice; PositionsMembers states
      which positions it holds. */
  function NonWhitePositions(p: Page): (ps: seq<(int, int)>)
    requires p.Valid()
    ensures Ordered(ps)
  {
    ColumnsOrdered(p, 0);
    Columns(p, 0)
  }

  /** Position a comes before b in the x-outer, y-inner scan. */
  predicate ScanBefore(a: (int, int), b: (int, int)) {
    a.0 < b.0 || (a.0 == b.0 && a.1 < b.1)
  }

  predicate Ordered(ps: seq<(int, int)>) {
    forall i, j | 0 <= i < j < |ps| :: ScanBefore(ps[i], ps[j])
  }

  lemma OrderedAppend(a: seq<(int, int)>, b: seq<(int, int)>)
    requires Ordered(a) && Ordered(b)
    requires forall i, j | 0 <= i < |a| && 0 <= j < |b| :: ScanBefore(a[i], b[j])
    ensures Ordered(a + b)
  {
  }

  lemma {:induction false} ColumnOrdered(p: Page, x: int, y: nat)
    requires p.Valid() && 0 <= x < p.width && y <= p.height
    ensures Ordered(Column(p, x, y))
    decreases p.height - y
  {
    if y < p.height {
      var rest := Column(p, x, y + 1);
      ColumnOrdered(p, x, y + 1);
      forall j | 0 <= j < |rest| ensures ScanBefore((x, y), rest[j]) {
        ColumnMembers(p, x, y + 1, rest[j].0, rest[j].1);
      }
      OrderedAppend(if NonWhite(p, x, y) then [(x, y)] else [], rest);
    }
  }

  lemma {:induction false} ColumnsOrdered(p: Page, x: nat)
    requires p.Valid() && x <= p.width
    ensures Ordered(Columns(p, x))
    decreases p.width - x
  {
    if x < p.width {
      var col, rest := Column(p, x, 0), Columns(p, x + 1);
      ColumnOrdered(p, x, 0);
      ColumnsOrdered(p, x + 1);
      forall i, j | 0 <= i < |col| && 0 <= j < |rest| ensures ScanBefore(col[i], rest[j]) {
        ColumnMembers(p, x, 0, col[i].0, col[i].1);
        ColumnsMembers(p, x + 1, rest[j].0, rest[j].1);
      }
      OrderedAppend(col, rest);
    }
  }

  /** [x for x, y in ps]: the first coordinates, one per position. */
  function Xs(ps: seq<(int, int)>): (xs: seq<int>)
    ensures |xs| == |ps|
    ensures forall x :: x in xs <==> exists y :: (x, y) in ps
  {
    var xs := seq(|ps|, i requires 0 <= i < |ps| => ps[i].0);
    forall x ensures x in xs <==> exists y :: (x, y) in ps {
      if x in xs {
        var i :| 0 <= i < |ps| && xs[i] == x;
        assert ps[i] == (x, ps[i].1);
      }
      if exists y :: (x, y) in ps {
        var y :| (x, y) in ps;
        var i :| 0 <= i < |ps| && ps[i] == (x, y);
        assert xs[i] == x;
      }
    }
    xs
  }

  /** [y for x, y in ps]: the second coordinates, one per position. */
  function Ys(ps: seq<(int, int)>): (ys: seq<int>)
    ensures |ys| == |ps|
    ensures forall y :: y in ys <==> exists x :: (x, y) in ps
  {
    var ys := seq(|ps|, i requires 0 <= i < |ps| => ps[i].1);
    forall y ensures y in ys <==> exists x :: (x, y) in ps {
      if y in ys {
        var i :| 0 <= i < |ps| && ys[i] == y;
        assert ps[i] == (ps[i].0, y);
      }
      if exists x :: (x, y) in ps {
        var x :| (x, y) in ps;
        var i :| 0 <= i < |ps| && ps[i] == (x, y);
        assert ys[i] == y;
      }
    }
    ys
  }

  /** Python's min on a non-empty list: an element no larger than any other. */
  function Min(s: seq<int>): (m: int)
    requires |s| > 0
    ensures m in s
    ensures forall e | e in s :: m <= e
  {
    if |s| == 1 then s[0]
    else
      assert s == [s[0]] + s[1..];
      var rest := Min(s[1..]);
      if s[0] <= rest then s[0] else rest
  }

  /** Python's max on a non-empty list: an element no smaller than any other. */
  function Max(s: seq<int>): (m: int)
    requires |s| > 0
    ensures m in s
    ensures forall e | e in s :: e <= m
  {
    if |s| == 1 then s[0]
    else
      assert s == [s[0]] + s[1..];
      var rest := Max(s[1..]);
      if s[0] >= rest then s[0] else rest
  }

  /** No pixel of the page differs from pure white. */
  ghost predicate Blank(p: Page)
    requires p.Valid()
  {
    forall x, y | InPage(p, x, y) :: !NonWhite(p, x, y)
  }

  /** Every non-white pixel lies in b, bounds included. */
  ghost predicate Encloses(p: Page, b: Box)
    requires p.Valid()
  {
    forall x, y | InPage(p, x, y) && NonWhite(p, x, y) ::
      b.left <= x <= b.right && b.top <= y <= b.bottom
  }

  /** Each of the four bounds of b is the coordinate of some non-white pixel. */
  ghost predicate Attained(p: Page, b: Box)
    requires p.Valid()
  {
    (exists y :: InPage(p, b.left, y) && NonWhite(p, b.left, y)) &&
    (exists y :: InPage(p, b.right, y) && NonWhite(p, b.right, y)) &&
    (exists x :: InPage(p, x, b.top) && NonWhite(p, x, b.top)) &&
    (exists x :: InPage(p, x, b.bottom) && NonWhite(p, x, b.bottom))
  }

  /** The tight bounding box: it encloses the content and every bound is reached. */
  ghost predicate IsTightBox(p: Page, b: Box)
    requires p.Valid()
  {
    Encloses(p, b) && Attained(p, b)
  }

  /** The box handed to crop at getformula.py:66, or None where min() of the
      empty position list raises because the page is entirely white. */
  function BoundingBox(p: Page): (box: Option<Box>)
    requires p.Valid()
    ensures box.None? <==> Blank(p)
    ensures box.Some? ==> IsTightBox(p, box.value)
  {
    var ps := NonWhitePositions(p);
    if ps == [] then
      BlankWhenNoPositions(p);
      None
    else
      var b := Box(Min(Xs(ps)), Min(Ys(ps)), Max(Xs(ps)), Max(Ys(ps)));
      ExtremesAreTight(p, ps, b);
      Some(b)
  }

  lemma {:induction false} ColumnMembers(p: Page, x: int, y: nat, a: int, c: int)
    requires p.Valid() && 0 <= x < p.width && y <= p.height
    ensures (a, c) in Column(p, x, y) <==> a == x && y <= c < p.height && NonWhite(p, x, c)
    decreases p.height - y
  {
    if y < p.height {
      ColumnMembers(p, x, y + 1, a, c);
    }
  }

  lemma {:induction false} ColumnsMembers(p: Page, x: nat, a: int, c: int)
    requires p.Valid() && x <= p.width
    ensures (a, c) in Columns(p, x) <==> x <= a < p.width && InPage(p, a, c) && NonWhite(p, a, c)
    decreases p.width - x
  {
    if x < p.width {
      ColumnMembers(p, x, 0, a, c);
      ColumnsMembers(p, x + 1, a, c);
    }
  }

  /** The comprehension lists exactly the in-page positions of non-white pixels. */
  lemma PositionsMembers(p: Page, x: int, y: int)
    requires p.Valid()
    ensures (x, y) in NonWhitePositions(p) <==> InPage(p, x, y) && NonWhite(p, x, y)
  {
    ColumnsMembers(p, 0, x, y);
  }

  lemma BlankWhenNoPositions(p: Page)
    requires p.Valid() && NonWhitePositions(p) == []
    ensures Blank(p)
  {
    forall x, y | InPage(p, x, y) ensures !NonWhite(p, x, y) {
      PositionsMembers(p, x, y);
    }
  }

  /** Positions listed by the comprehension are non-white pixels of the page. */
  lemma ListedIsNonWhite(p: Page, ps: seq<(int, int)>, i: int)
    requires p.Valid() && ps == NonWhitePositions(p) && 0 <= i < |ps|
    ensures InPage(p, ps[i].0, ps[i].1) && NonWhite(p, ps[i].0, ps[i].1)
  {
    PositionsMembers(p, ps[i].0, ps[i].1);
  }

  lemma ExtremesAreTight(p: Page, ps: seq<(int, int)>, b: Box)
    requires p.Valid() && ps == NonWhitePositions(p) && ps != []
    requires b == Box(Min(Xs(ps)), Min(Ys(ps)), Max(Xs(ps)), Max(Ys(ps)))
    ensures !Blank(p) && IsTightBox(p, b)
  {
    ExtremesEnclose(p, ps, b);
    var xs, ys := Xs(ps), Ys(ps);
    var i :| 0 <= i < |xs| && xs[i] == b.left;
    ListedIsNonWhite(p, ps, i);
    var j :| 0 <= j < |xs| && xs[j] == b.right;
    ListedIsNonWhite(p, ps, j);
    var k :| 0 <= k < |ys| && ys[k] == b.top;
    ListedIsNonWhite(p, ps, k);
    var l :| 0 <= l < |ys| && ys[l] == b.bottom;
    ListedIsNonWhite(p, ps, l);
  }

  lemma ExtremesEnclose(p: Page, ps: seq<(int, int)>, b: Box)
    requires p.Valid() && ps == NonWhitePositions(p) && ps != []
    requires b == Box(Min(Xs(ps)), Min(Ys(ps)), Max(Xs(ps)), Max(Ys(ps)))
    ensures Encloses(p, b)
  {
    forall x, y | InPage(p, x, y) && NonWhite(p, x, y)
      ensures b.left <= x <= b.right && b.top <= y <= b.bottom
    {
      PositionsMembers(p, x, y);
      var i :| 0 <= i < |ps| && ps[i] == (x, y);
      ListedWithin(ps, i);
    }
  }

  /** The coordinates of a listed position lie between the minima and maxima. */
  lemma ListedWithin(ps: seq<(int, int)>, i: int)
    requires 0 <= i < |ps|
    ensures Min(Xs(ps)) <= ps[i].0 <= Max(Xs(ps)) && Min(Ys(ps)) <= ps[i].1 <= Max(Ys(ps))
  {
    assert Xs(ps)[i] in Xs(ps) && Ys(ps)[i] in Ys(ps);
  }

  /** The crop box lies inside the page: 0 <= left <= right < width and
      0 <= top <= bottom < height. */
  lemma BoundingBoxInsidePage(p: Page)
    requires p.Valid() && !Blank(p)
    ensures var b := BoundingBox(p).value;
      0 <= b.left <= b.right < p.width && 0 <= b.top <= b.bottom < p.height
  {
  }

  /** The tight box is unique: the box computed from min and max is the only box
      that encloses the content with every bound reached. */
  lemma TightBoxUnique(p: Page, b1: Box, b2: Box)
    requires p.Valid() && IsTightBox(p, b1) && IsTightBox(p, b2)
    ensures b1 == b2
  {
  }

  /** Any box that encloses every non-white pixel contains the computed box. */
  lemma BoundingBoxMinimal(p: Page, c: Box)
    requires p.Valid() && !Blank(p) && Encloses(p, c)
    ensures var b := BoundingBox(p).value;
      c.left <= b.left && b.right <= c.right && c.top <= b.top && b.bottom <= c.bottom
  {
  }

  /** Pillow's Image.crop keeps the pixels with left <= x < right and
      top <= y < bottom: the right and lower bounds are exclusive. */
  predicate CropKeeps(rect: Box, x: int, y: int) {
    rect.left <= x < rect.right && rect.top <= y < rect.bottom
  }

  /** As written, the inclusive maxima go to crop as its exclusive bounds, so the
      non-white pixels of the rightmost column and of the lowest row are cut off. */
  lemma CropAsWrittenDropsEdges(p: Page)
    requires p.Valid() && !Blank(p)
    ensures var b := BoundingBox(p).value;
      (exists y :: InPage(p, b.right, y) && NonWhite(p, b.right, y) && !CropKeeps(b, b.right, y)) &&
      (exists x :: InPage(p, x, b.bottom) && NonWhite(p, x, b.bottom) && !CropKeeps(b, x, b.bottom))
  {
  }

  /** A 3x3 page whose only non-white pixel is the centre. */
  const Dot: Page := Page(3, 3, [White, White, White, White, (0, 0, 0), White, White, White, White])

  /** On Dot the computed box is (1, 1, 1, 1), and crop keeps no pixel of it. */
  lemma CropAsWrittenDotExample()
    ensures Dot.Valid() && BoundingBox(Dot) == Some(Box(1, 1, 1, 1))
    ensures forall x, y :: !CropKeeps(Box(1, 1, 1, 1), x, y)
  {
    var dot := Box(1, 1, 1, 1);
    forall x, y | InPage(Dot, x, y) && NonWhite(Dot, x, y)
      ensures x == 1 && y == 1
    {
      assert Dot.pixels[x + Times(y, 3)] != White;
    }
    assert NonWhite(Dot, 1, 1) by {
      assert Dot.pixels[1 + Times(1, 3)] == (0, 0, 0);
    }
    assert IsTightBox(Dot, dot);
    TightBoxUnique(Dot, BoundingBox(Dot).value, dot);
  }

  /** The crop rectangle evidently intended: the maxima plus one, as Pillow's
      exclusive right and lower bounds require. */
  function CropRect(b: Box): (rect: Box)
    ensures forall x, y :: CropKeeps(rect, x, y) <==> b.left <= x <= b.right && b.top <= y <= b.bottom
  {
    Box(b.left, b.top, b.right + 1, b.bottom + 1)
  }

  /** With CropRect, crop keeps every non-white pixel, the kept region is a
      non-empty part of the page, and any rectangle that keeps every non-white
      pixel contains it. */
  lemma CropRectKeepsContent(p: Page, other: Box)
    requires p.Valid() && !Blank(p)
    ensures var rect := CropRect(BoundingBox(p).value);
      (forall x, y | InPage(p, x, y) && NonWhite(p, x, y) :: CropKeeps(rect, x, y)) &&
      0 <= rect.left < rect.right <= p.width && 0 <= rect.top < rect.bottom <= p.height &&
      ((forall x, y | InPage(p, x, y) && NonWhite(p, x, y) :: CropKeeps(other, x, y)) ==>
        other.left <= rect.left && rect.right <= other.right &&
        other.top <= rect.top && rect.bottom <= other.bottom)
  {
  }
}
