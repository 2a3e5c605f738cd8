/** The scan of the thinned skeleton image into the list of its white
    pixels (python/old.py, lines 393-397). */
module Scan {
  import opened Points

  /** Width and height of the skeleton after the fixed resize. */
  const Size: nat := 1000

  /** The value of a foreground pixel in the binary skeleton. */
  const White: int := 255

  /** The first colour channel of the skeleton, indexed `[y][x]`. */
  type Image = seq<seq<int>>

  /** The image really is `Size` x `Size`, as the resize step guarantees. */
  predicate WellFormed(img: Image) {
    |img| == Size && forall y :: 0 <= y < |img| ==> |img[y]| == Size
  }

  /** The pixel lies on the canvas and is white. */
  predicate IsWhite(img: Image, p: Point)
    requires WellFormed(img)
  {
    0 <= p.x < Size && 0 <= p.y < Size && img[p.y][p.x] == White
  }

  /** Row-major order: by row first, then by column. */
  predicate Before(p: Point, q: Point) {
    p.y < q.y || (p.y == q.y && p.x < q.x)
  }

  /** Every pixel comes strictly before the next one in row-major order. */
  predicate RowMajor(ps: seq<Point>) {
    forall i, j :: 0 <= i < j < |ps| ==> Before(ps[i], ps[j])
  }

  /** The list after the inner loop has visited columns `0 .. x-1` of row
      `y`: the white pixels found there, appended left to right. */
  function RowUpTo(img: Image, y: nat, x: nat): seq<Point>
    requires WellFormed(img) && y < Size && x <= Size
  {
    if x == 0 then []
    else if img[y][x - 1] == White then RowUpTo(img, y, x - 1) + [Point(x - 1, y)]
    else RowUpTo(img, y, x - 1)
  }

  /** The list after the outer loop has visited rows `0 .. y-1`. */
  function RowsUpTo(img: Image, y: nat): seq<Point>
    requires WellFormed(img) && y <= Size
  {
    if y == 0 then [] else RowsUpTo(img, y - 1) + RowUpTo(img, y - 1, Size)
  }

  /** The list of white pixels: the full `Size` x `Size` scan. */
  function WhitePixels(img: Image): seq<Point>
    requires WellFormed(img)
  {
    RowsUpTo(img, Size)
  }

  /** The first `x` columns of row `y` contribute exactly their white
      pixels, in increasing column order. */
  lemma {:induction false} RowUpToContents(img: Image, y: nat, x: nat)
    requires WellFormed(img) && y < Size && x <= Size
    ensures forall p :: p in RowUpTo(img, y, x) <==> IsWhite(img, p) && p.y == y && p.x < x
    ensures RowMajor(RowUpTo(img, y, x))
  {
    if x > 0 {
      RowUpToContents(img, y, x - 1);
    }
  }

  /** The first `y` rows contribute exactly their white pixels, in
      row-major order. */
  lemma {:induction false} RowsUpToContents(img: Image, y: nat)
    requires WellFormed(img) && y <= Size
    ensures forall p :: p in RowsUpTo(img, y) <==> IsWhite(img, p) && p.y < y
    ensures RowMajor(RowsUpTo(img, y))
  {
    if y > 0 {
      var done, row := RowsUpTo(img, y - 1), RowUpTo(img, y - 1, Size);
      RowsUpToContents(img, y - 1);
      RowUpToContents(img, y - 1, Size);
      forall i, j | 0 <= i < |done| && 0 <= j < |row| ensures Before(done[i], row[j]) {
        assert done[i] in done && row[j] in row;
      }
      assert RowsUpTo(img, y) == done + row;
    }
  }

  /** The scan lists every white pixel of the canvas and nothing else, in
      row-major order. */
  lemma WhitePixelsContents(img: Image)
    requires WellFormed(img)
    ensures forall p :: p in WhitePixels(img) <==> IsWhite(img, p)
    ensures RowMajor(WhitePixels(img))
  {
    RowsUpToContents(img, Size);
  }

  /** Row-major order is strict, so a row-major list never repeats a pixel. */
  lemma RowMajorIsDistinct(ps: seq<Point>)
    requires RowMajor(ps)
    ensures Distinct(ps)
  {
  }

  /** The white-pixel list has no duplicates and every pixel in it lies on
      the canvas. */
  lemma WhitePixelsDistinctOnCanvas(img: Image)
    requires WellFormed(img)
    ensures Distinct(WhitePixels(img))
    ensures forall p :: p in WhitePixels(img) ==> 0 <= p.x < Size && 0 <= p.y < Size
  {
    WhitePixelsContents(img);
    RowMajorIsDistinct(WhitePixels(img));
  }

  /** The source's two nested loops, appending `[x, y]` for every white
      pixel; the list they build is `WhitePixels`. */
  method ScanImage(img: Image) returns (ps: seq<Point>)
    requires WellFormed(img)
    ensures ps == WhitePixels(img)
  {
    ps := [];
    var y := 0;
    while y < Size
      invariant 0 <= y <= Size
      invariant ps == RowsUpTo(img, y)
    {
      var x := 0;
      while x < Size
        invariant 0 <= x <= Size
        invariant ps == RowsUpTo(img, y) + RowUpTo(img, y, x)
      {
        if img[y][x] == White {
          ps := ps + [Point(x, y)];
        }
        x := x + 1;
      }
      y := y + 1;
    }
  }
}
