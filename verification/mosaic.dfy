/** `Program.WriteOutput` (`Program.cs` lines 139-155): the decoded frames
    laid out as contact sheets of 10 by 10 cells, one JPEG page per 100
    frames, each named after the index of its first frame.

    Drawing and JPEG encoding are left out: a page records the grid cell
    each frame is drawn in, and the file name it is saved under. */
module Mosaic {
  import opened Common
  import opened Text

  /** Frame `index` drawn in column `col` and row `row` of the grid. */
  datatype Placement = Placement(index: nat, col: nat, row: nat)

  /** One contact sheet: the index of its first frame, the canvas size, the
      frames drawn on it and the name it is saved under. */
  datatype Page = Page(start: nat, width: nat, height: nat, cells: seq<Placement>, fileName: string)

  /** The placeholder replaced by the page's first index. */
  const Marker: string := "%n"

  /** The pixel at which a cell's top-left corner is drawn, for frames of
      `w` by `h` pixels (line 150). */
  function Left(c: Placement, w: nat): nat
  {
    c.col * w
  }

  function Top(c: Placement, h: nat): nat
  {
    c.row * h
  }

  function Min(a: int, b: int): int
  {
    if a <= b then a else b
  }

  /** The innermost loop (line 148) from column `x` of row `y` of the page
      starting at `i`, for `n` frames: the frames of the row that exist, in
      order, each in its own column. */
  function RowFrom(i: nat, y: nat, x: nat, n: nat): (r: seq<Placement>)
    requires x <= 10
    ensures |r| == if i + y * 10 + x < n then Min(10 - x, n - (i + y * 10 + x)) else 0
    ensures forall k :: 0 <= k < |r| ==> r[k] == Placement(i + y * 10 + x + k, x + k, y)
    decreases 10 - x
  {
    if x < 10 && i + y * 10 + x < n then
      var rest := RowFrom(i, y, x + 1, n);
      var r := [Placement(i + y * 10 + x, x, y)] + rest;
      assert forall k :: 1 <= k < |r| ==> r[k] == rest[k - 1];
      r
    else []
  }

  /** Cell `j` counted row by row from row `y`: ten cells to a row, every
      column below 10. */
  predicate InCell(c: Placement, y: nat, j: nat)
  {
    c.row * 10 + c.col == y * 10 + j && c.col < 10
  }

  /** The row loop (line 147) from row `y` of the page starting at `i`:
      the frames of the rows that exist, in order, row by row. */
  function RowsFrom(i: nat, y: nat, n: nat): (r: seq<Placement>)
    requires y <= 10
    ensures |r| == if i + y * 10 < n then Min(100 - y * 10, n - (i + y * 10)) else 0
    ensures forall k :: 0 <= k < |r| ==> r[k].index == i + y * 10 + k && InCell(r[k], y, k)
    decreases 10 - y
  {
    if y < 10 && i + y * 10 < n then
      var row := RowFrom(i, y, 0, n);
      var rest := RowsFrom(i, y + 1, n);
      RowsJoin(i + y * 10, n, 100 - y * 10, y, row, rest);
      row + rest
    else []
  }

  /** A row of up to 10 frames from frame `first`, then the rows below it:
      up to `room` frames from `first`, in order, row by row. */
  lemma RowsJoin(first: nat, n: nat, room: nat, y: nat, row: seq<Placement>, rest: seq<Placement>)
    requires first < n && room >= 10
    requires |row| == Min(10, n - first)
    requires forall k :: 0 <= k < |row| ==> row[k] == Placement(first + k, k, y)
    requires |rest| == if first + 10 < n then Min(room - 10, n - (first + 10)) else 0
    requires forall k :: 0 <= k < |rest| ==> rest[k].index == first + 10 + k && InCell(rest[k], y + 1, k)
    ensures |row + rest| == Min(room, n - first)
    ensures forall k :: 0 <= k < |row + rest| ==> (row + rest)[k].index == first + k && InCell((row + rest)[k], y, k)
  {
    forall k | 0 <= k < |row + rest|
      ensures (row + rest)[k].index == first + k && InCell((row + rest)[k], y, k)
    {
      if k < |row| {
        assert (row + rest)[k] == row[k];
      } else {
        assert (row + rest)[k] == rest[k - 10];
      }
    }
  }

  /** The cell numbered `j` row by row is column `j % 10` of row `j / 10`. */
  lemma CellNumber(c: Placement, j: nat)
    requires InCell(c, 0, j)
    ensures c.col == j % 10 && c.row == j / 10
  {
  }

  /** Line 152: the output template with every `%n` replaced by the page's
      first index in decimal. */
  function FileName(template: string, start: nat): (name: string)
    ensures !Occurs(template, Marker) ==> name == template
    ensures !Occurs(name, Marker)
  {
    var digits := NatToString(start);
    assert '%' !in digits && 'n' !in digits by {
      assert forall k :: 0 <= k < |digits| ==> IsDigit(digits[k]);
    }
    ReplaceLeavesNoPair(template, Marker, digits);
    Replace(template, Marker, digits)
  }

  /** The page whose first frame is `i`: a canvas ten frames wide and ten
      high (line 145) and the cells of lines 147-150. */
  function MakePage(i: nat, n: nat, w: nat, h: nat, template: string): Page
  {
    Page(i, w * 10, h * 10, RowsFrom(i, 0, n), FileName(template, i))
  }

  /** The page loop (line 143) from the page starting at `i`: one page
      every 100 frames while frames are left, made by `make`. */
  function PagesFrom<P>(i: nat, n: nat, make: nat -> P): (pages: seq<P>)
    ensures |pages| == if i < n then (n - i + 99) / 100 else 0
    ensures forall p :: 0 <= p < |pages| ==> pages[p] == make(i + 100 * p)
    decreases n - i
  {
    if i < n then
      var rest := PagesFrom(i + 100, n, make);
      assert |rest| + 1 == (n - i + 99) / 100 by {
        if i + 100 < n {
          assert (n - i + 99) / 100 == (n - (i + 100) + 99) / 100 + 1;
        }
      }
      var pages := [make(i)] + rest;
      forall p | 1 <= p < |pages| ensures pages[p] == make(i + 100 * p) {
        var q := p - 1;
        assert pages[p] == rest[q];
        assert i + 100 + 100 * q == i + 100 * p;
      }
      pages
    else []
  }

  /** `WriteOutput`: every cell has the size of the first frame (line 141),
      which an empty list does not have, so that call fails at
      `images[0]`. */
  function WriteOutput(images: seq<Image>, template: string): (r: Result<seq<Page>>)
    ensures |images| == 0 <==> r == Failure(IndexOutOfRange(0))
    ensures r.Success? ==> |r.value| == (|images| + 99) / 100
    ensures r.Success? ==> forall p :: 0 <= p < |r.value| ==>
              && r.value[p].start == 100 * p
              && r.value[p].width == images[0].width * 10
              && r.value[p].height == images[0].height * 10
  {
    if |images| == 0 then Failure(IndexOutOfRange(0))
    else
      var n, w, h := |images|, images[0].width, images[0].height;
      var pages := PagesFrom(0, n, start => MakePage(start, n, w, h, template));
      assert forall p :: 0 <= p < |pages| ==> pages[p].start == 100 * p && pages[p].width == w * 10 && pages[p].height == h * 10 by {
        forall p | 0 <= p < |pages| ensures pages[p].start == 100 * p && pages[p].width == w * 10 && pages[p].height == h * 10 {
          assert pages[p] == MakePage(100 * p, n, w, h, template);
        }
      }
      Success(pages)
  }

  /** The frames on a page: up to 100 consecutive frames from its first,
      counted row by row. */
  lemma PageLayout(images: seq<Image>, template: string, p: nat)
    requires WriteOutput(images, template).Success? && p < |WriteOutput(images, template).value|
    ensures var page := WriteOutput(images, template).value[p];
            && page.start < |images|
            && |page.cells| == Min(100, |images| - page.start)
            && forall j :: 0 <= j < |page.cells| ==> page.cells[j].index == page.start + j && InCell(page.cells[j], 0, j)
  {
    var n, start := |images|, 100 * p;
    PageIsMade(images, template, p);
    assert |RowsFrom(start, 0, n)| == Min(100, n - start);
  }

  /** Page `p` is the page `MakePage` lays out from frame `100 * p`, an
      existing frame. */
  lemma PageIsMade(images: seq<Image>, template: string, p: nat)
    requires WriteOutput(images, template).Success? && p < |WriteOutput(images, template).value|
    ensures 100 * p < |images|
    ensures WriteOutput(images, template).value[p] == MakePage(100 * p, |images|, images[0].width, images[0].height, template)
  {
    PageStartBelow(|images|, p);
  }

  /** Page `p` of `n` frames starts at an existing frame. */
  lemma PageStartBelow(n: nat, p: nat)
    requires p < (n + 99) / 100
    ensures 100 * p < n
  {
  }

  /** The cells of a page: frame `start + j` in column `j % 10` and row
      `j / 10`. */
  lemma PageCells(images: seq<Image>, template: string, p: nat)
    requires WriteOutput(images, template).Success? && p < |WriteOutput(images, template).value|
    ensures var page := WriteOutput(images, template).value[p];
            && page.start < |images|
            && |page.cells| == Min(100, |images| - page.start)
            && forall j :: 0 <= j < |page.cells| ==>
                 page.cells[j] == Placement(page.start + j, j % 10, j / 10)
  {
    PageLayout(images, template, p);
    var page := WriteOutput(images, template).value[p];
    forall j | 0 <= j < |page.cells| ensures page.cells[j] == Placement(page.start + j, j % 10, j / 10) {
      CellNumber(page.cells[j], j);
    }
  }

  /** The pages of `n` frames as `WriteOutput` numbers them: one page per
      100 frames or part thereof, page `p` showing up to 100 consecutive
      frames from frame `100 * p`. */
  predicate Numbered(pages: seq<Page>, n: nat)
  {
    && n > 0 && |pages| == (n + 99) / 100
    && forall p :: 0 <= p < |pages| ==>
         && |pages[p].cells| == Min(100, n - 100 * p)
         && forall j :: 0 <= j < |pages[p].cells| ==> pages[p].cells[j].index == 100 * p + j
  }

  /** Pages of up to 100 consecutive cells, page `p` starting at frame
      `100 * p`, cover the frames `0 .. n - 1` once each. */
  lemma CoverOnce(pages: seq<Page>, n: nat)
    requires Numbered(pages, n)
    ensures forall k :: 0 <= k < n ==>
              k / 100 < |pages| && k % 100 < |pages[k / 100].cells| && pages[k / 100].cells[k % 100].index == k
    ensures forall p, j :: 0 <= p < |pages| && 0 <= j < |pages[p].cells| ==>
              pages[p].cells[j].index == 100 * p + j < n
  {
    forall k | 0 <= k < n
      ensures k / 100 < |pages| && k % 100 < |pages[k / 100].cells| && pages[k / 100].cells[k % 100].index == k
    {
      var p, j := k / 100, k % 100;
      assert k == 100 * p + j;
    }
  }

  /** The frame indices on each page, from `PageLayout`. */
  lemma PageIndices(images: seq<Image>, template: string, pages: seq<Page>)
    requires WriteOutput(images, template) == Success(pages)
    ensures Numbered(pages, |images|)
  {
    forall p | 0 <= p < |pages|
      ensures |pages[p].cells| == Min(100, |images| - 100 * p)
      ensures forall j :: 0 <= j < |pages[p].cells| ==> pages[p].cells[j].index == 100 * p + j
    {
      PageLayout(images, template, p);
    }
  }

  /** Every frame is drawn: frame `k` on page `k / 100` in cell
      `k % 100`. */
  lemma EveryFrameDrawn(images: seq<Image>, template: string, pages: seq<Page>)
    requires WriteOutput(images, template) == Success(pages)
    ensures forall k :: 0 <= k < |images| ==>
              k / 100 < |pages| && k % 100 < |pages[k / 100].cells| && pages[k / 100].cells[k % 100].index == k
  {
    PageIndices(images, template, pages);
    CoverOnce(pages, |images|);
  }

  /** Every frame is drawn once: cell `j` of page `p` shows frame
      `100 * p + j`, which exists, so no two cells show the same frame. */
  lemma DrawnOnce(images: seq<Image>, template: string, pages: seq<Page>)
    requires WriteOutput(images, template) == Success(pages)
    ensures forall p, j :: 0 <= p < |pages| && 0 <= j < |pages[p].cells| ==>
              pages[p].cells[j].index == 100 * p + j < |images|
  {
    PageIndices(images, template, pages);
    forall p, j | 0 <= p < |pages| && 0 <= j < |pages[p].cells|
      ensures pages[p].cells[j].index == 100 * p + j < |images|
    {
      CellOfPage(pages, |images|, p, j);
    }
  }

  lemma CellOfPage(pages: seq<Page>, n: nat, p: nat, j: nat)
    requires Numbered(pages, n) && p < |pages| && j < |pages[p].cells|
    ensures pages[p].cells[j].index == 100 * p + j < n
  {
  }

  /** A cell of a 10 by 10 grid lies inside a canvas ten cells wide and
      ten high. */
  lemma CellInside(c: Placement, w: nat, h: nat)
    requires c.col < 10 && c.row < 10
    ensures Left(c, w) + w <= w * 10
    ensures Top(c, h) + h <= h * 10
  {
    MulMono(c.col + 1, 10, w);
    MulMono(c.row + 1, 10, h);
  }

  /** Every frame is drawn inside its page's canvas. */
  lemma CellsFit(images: seq<Image>, template: string, p: nat, j: nat)
    requires WriteOutput(images, template).Success? && p < |WriteOutput(images, template).value|
    requires j < |WriteOutput(images, template).value[p].cells|
    ensures var page := WriteOutput(images, template).value[p];
            && Left(page.cells[j], images[0].width) + images[0].width <= page.width
            && Top(page.cells[j], images[0].height) + images[0].height <= page.height
  {
    PageLayout(images, template, p);
    var c := WriteOutput(images, template).value[p].cells[j];
    assert InCell(c, 0, j) && j < 100;
    CellInside(c, images[0].width, images[0].height);
  }

  /** Each page is saved under the template with `%n` replaced by the
      page's first index: no `%n` survives, and a template without one is
      used as it is. */
  lemma PageNames(images: seq<Image>, template: string, p: nat)
    requires WriteOutput(images, template).Success? && p < |WriteOutput(images, template).value|
    ensures var page := WriteOutput(images, template).value[p];
            && page.fileName == Replace(template, Marker, NatToString(100 * p))
            && !Occurs(page.fileName, Marker)
            && (!Occurs(template, Marker) ==> page.fileName == template)
  {
  }
}
