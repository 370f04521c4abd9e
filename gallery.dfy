/** One page of the gallery: each image's caption, chosen by the caption
    mode, and the placement of the images in rows of four columns. */
module Gallery {
  import opened TagIndex

  const Columns: nat := 4

  /** The caption dropdown's options: "Tags", "Captions", "InscriptionId"
      and None. */
  datatype CaptionMode = TagsCaption | CaptionsCaption | InscriptionIdCaption | NoCaption

  /** One image placed in the grid, with the caption shown under it. */
  datatype Cell = Cell(id: string, caption: Option<string>)

  /** `" ".join(tags)`. */
  function Join(tags: seq<string>): (r: string)
  {
    if |tags| == 0 then ""
    else if |tags| == 1 then tags[0]
    else tags[0] + " " + Join(tags[1..])
  }

  /** Python's `s.split(" ")`: the pieces between single spaces, empty
      pieces included. */
  function Split(s: string): (r: seq<string>)
    ensures |r| >= 1
  {
    if s == [] then [""]
    else
      var rest := Split(s[1..]);
      if s[0] == ' ' then [""] + rest
      else [[s[0]] + rest[0]] + rest[1..]
  }

  /** A string without spaces is one piece. */
  lemma {:induction false} SplitNoSpace(s: string)
    requires ' ' !in s
    ensures Split(s) == [s]
  {
    if s != [] {
      assert ' ' !in s[1..];
      SplitNoSpace(s[1..]);
      assert [s[0]] + s[1..] == s;
    }
  }

  /** A space ends the first piece. */
  lemma {:induction false} SplitAtSpace(a: string, b: string)
    requires ' ' !in a
    ensures Split(a + " " + b) == [a] + Split(b)
  {
    if a == [] {
      assert a + " " + b == [' '] + b;
      assert ([' '] + b)[1..] == b;
    } else {
      assert ' ' !in a[1..];
      SplitAtSpace(a[1..], b);
      assert (a + " " + b)[1..] == a[1..] + " " + b;
      assert [a[0]] + a[1..] == a;
    }
  }

  /** The "Tags" caption gives the tag list back when split at spaces,
      provided there is at least one tag and no tag holds a space. */
  lemma {:induction false} SplitJoin(tags: seq<string>)
    requires |tags| >= 1
    requires forall k :: 0 <= k < |tags| ==> ' ' !in tags[k]
    ensures Split(Join(tags)) == tags
  {
    if |tags| == 1 {
      SplitNoSpace(tags[0]);
    } else {
      SplitAtSpace(tags[0], Join(tags[1..]));
      SplitJoin(tags[1..]);
      assert [tags[0]] + tags[1..] == tags;
    }
  }

  /** The caption under image `id`: its tags joined by spaces, its raw
      caption, its id, or no caption at all. The two lookups raise KeyError
      for an id the index lacks. */
  function Caption(idx: Index, id: string, mode: CaptionMode): (r: Result<Option<string>>)
    ensures r.Err? ==> (mode.TagsCaption? || mode.CaptionsCaption?) && r.error == KeyError(id)
    ensures r.Ok? ==> (r.value.None? <==> mode.NoCaption?)
    ensures mode.InscriptionIdCaption? ==> r == Ok(Some(id))
  {
    match mode
    case TagsCaption =>
      (match GetImageTags(idx, id)
       case Err(e) => Err(e)
       case Ok(tags) => Ok(Some(Join(tags))))
    case CaptionsCaption =>
      (match GetImageCaptions(idx, id)
       case Err(e) => Err(e)
       case Ok(raw) => Ok(Some(raw)))
    case InscriptionIdCaption => Ok(Some(id))
    case NoCaption => Ok(None)
  }

  /** Only the two modes that look the image up can fail, and they fail
      exactly for an id the index lacks. */
  lemma CaptionFails(idx: Index, id: string, mode: CaptionMode)
    ensures Caption(idx, id, mode).Err? <==> (mode.TagsCaption? || mode.CaptionsCaption?) && id !in Keys(idx)
  {
  }

  /** For an image of the index, "Tags" gives its tags joined by single
      spaces, "Captions" its raw caption or `""`, "InscriptionId" its id, and
      None no caption. */
  lemma CaptionOfEntry(idx: Index, i: nat, mode: CaptionMode)
    requires DistinctKeys(idx) && i < |idx|
    ensures Caption(idx, idx[i].id, mode) ==
            Ok(match mode
               case TagsCaption => Some(Join(idx[i].rec.TagList()))
               case CaptionsCaption => Some(idx[i].rec.RawCaption())
               case InscriptionIdCaption => Some(idx[i].id)
               case NoCaption => None)
  {
    LookupAt(idx, i);
  }

  /** With the "Tags" mode, splitting an image's caption at spaces gives
      back its tags, when it has some and none holds a space. */
  lemma TagsCaptionRoundTrip(idx: Index, i: nat)
    requires DistinctKeys(idx) && i < |idx|
    requires |idx[i].rec.TagList()| >= 1
    requires forall k :: 0 <= k < |idx[i].rec.TagList()| ==> ' ' !in idx[i].rec.TagList()[k]
    ensures Caption(idx, idx[i].id, TagsCaption).Ok?
    ensures Split(Caption(idx, idx[i].id, TagsCaption).value.value) == idx[i].rec.TagList()
  {
    LookupAt(idx, i);
    SplitJoin(idx[i].rec.TagList());
  }

  /** The captioned cells of one page, in page order; the first id whose
      caption lookup fails stops the page with its KeyError. */
  function PageCells(idx: Index, page: seq<string>, mode: CaptionMode): (r: Result<seq<Cell>>)
    ensures r.Ok? ==> |r.value| == |page|
  {
    if page == [] then Ok([])
    else
      match PageCells(idx, page[..|page| - 1], mode)
      case Err(e) => Err(e)
      case Ok(cells) =>
        match Caption(idx, page[|page| - 1], mode)
        case Err(e) => Err(e)
        case Ok(caption) => Ok(cells + [Cell(page[|page| - 1], caption)])
  }

  /** A page's cells succeed exactly when every caption on it does. */
  lemma {:induction false} PageCellsOk(idx: Index, page: seq<string>, mode: CaptionMode)
    ensures PageCells(idx, page, mode).Ok? <==>
            forall j :: 0 <= j < |page| ==> Caption(idx, page[j], mode).Ok?
  {
    if page != [] {
      var init := page[..|page| - 1];
      PageCellsOk(idx, init, mode);
      if PageCells(idx, init, mode).Err? {
        var j :| 0 <= j < |init| && Caption(idx, init[j], mode).Err?;
        assert init[j] == page[j];
      } else if Caption(idx, page[|page| - 1], mode).Ok? {
        forall j | 0 <= j < |page| ensures Caption(idx, page[j], mode).Ok? {
          if j < |init| {
            assert init[j] == page[j];
          }
        }
      }
    }
  }

  /** On success, cell `j` of a page is image `j` with its caption. */
  lemma {:induction false} PageCellsAt(idx: Index, page: seq<string>, mode: CaptionMode, j: nat)
    requires PageCells(idx, page, mode).Ok? && j < |page|
    ensures Caption(idx, page[j], mode).Ok?
    ensures PageCells(idx, page, mode).value[j] == Cell(page[j], Caption(idx, page[j], mode).value)
  {
    var init := page[..|page| - 1];
    if j < |init| {
      PageCellsAt(idx, init, mode, j);
      assert init[j] == page[j];
    }
  }

  /** A page that fails carries the error of its first failing caption. */
  lemma {:induction false} PageCellsFirstError(idx: Index, page: seq<string>, mode: CaptionMode)
    requires PageCells(idx, page, mode).Err?
    ensures exists j :: 0 <= j < |page| && Caption(idx, page[j], mode) == Err(PageCells(idx, page, mode).error) &&
                        forall k :: 0 <= k < j ==> Caption(idx, page[k], mode).Ok?
  {
    var init := page[..|page| - 1];
    if PageCells(idx, init, mode).Err? {
      PageCellsFirstError(idx, init, mode);
      var j :| 0 <= j < |init| && Caption(idx, init[j], mode) == Err(PageCells(idx, init, mode).error) &&
               forall k :: 0 <= k < j ==> Caption(idx, init[k], mode).Ok?;
      assert forall k :: 0 <= k <= j ==> init[k] == page[k];
    } else {
      PageCellsOk(idx, init, mode);
      assert forall k :: 0 <= k < |init| ==> init[k] == page[k];
    }
  }

  /** The rows of columns built for a page: one row is created before the
      first image, and each image whose position is a multiple of four opens
      a new row; every image goes into the current (last) row. */
  function Grid(cells: seq<Cell>): (g: seq<seq<Cell>>)
    ensures |g| >= 1
  {
    if cells == [] then [[]]
    else
      var init := cells[..|cells| - 1];
      var c := cells[|cells| - 1];
      var g := Grid(init);
      if |init| % Columns == 0 then g + [[c]]
      else g[..|g| - 1] + [g[|g| - 1] + [c]]
  }

  /** The shape of the grid: the row made before the loop stays empty,
      since the first image opens a row of its own; the image rows number
      `ceil(n / 4)`, all full but the last, which holds the remaining
      `(n - 1) % 4 + 1` images. */
  lemma {:induction false} GridShape(cells: seq<Cell>)
    ensures |Grid(cells)| == 1 + (|cells| + Columns - 1) / Columns
    ensures Grid(cells)[0] == []
    ensures |cells| > 0 ==> |Grid(cells)[|Grid(cells)| - 1]| == (|cells| - 1) % Columns + 1
    ensures forall k :: 1 <= k < |Grid(cells)| - 1 ==> |Grid(cells)[k]| == Columns
  {
    if cells != [] {
      var init := cells[..|cells| - 1];
      var n := |init|;
      GridShape(init);
      var g := Grid(init);
      if n % Columns == 0 {
        assert (n + 1 + Columns - 1) / Columns == (n + Columns - 1) / Columns + 1;
        assert n > 0 ==> |g[|g| - 1]| == Columns;
      } else {
        assert (n + 1 + Columns - 1) / Columns == (n + Columns - 1) / Columns;
        assert |g| >= 2;
      }
    }
  }

  /** Image `i` of a page is in row `1 + i / 4`, column `i % 4`. */
  lemma {:induction false} GridPlacement(cells: seq<Cell>, i: nat)
    requires i < |cells|
    ensures 1 + i / Columns < |Grid(cells)|
    ensures i % Columns < |Grid(cells)[1 + i / Columns]|
    ensures Grid(cells)[1 + i / Columns][i % Columns] == cells[i]
  {
    var init := cells[..|cells| - 1];
    var n := |init|;
    GridShape(init);
    GridShape(cells);
    var g := Grid(init);
    if i < n {
      GridPlacement(init, i);
      assert init[i] == cells[i];
    } else {
      assert i == n;
      if n % Columns == 0 {
        assert 1 + i / Columns == |g|;
      } else {
        assert 1 + i / Columns == |g| - 1;
        assert |g[|g| - 1]| == n % Columns;
      }
    }
  }

  /** The page loop: for each image in order, open a new row of four
      columns when its position is a multiple of four, work out its caption
      and put it in column `i % 4` of the current row. */
  method RenderPage(idx: Index, page: seq<string>, mode: CaptionMode)
    returns (r: Result<seq<seq<Cell>>>)
    ensures PageCells(idx, page, mode).Err? ==> r == Err(PageCells(idx, page, mode).error)
    ensures PageCells(idx, page, mode).Ok? ==> r == Ok(Grid(PageCells(idx, page, mode).value))
  {
    var grid: seq<seq<Cell>> := [[]];
    ghost var cells: seq<Cell> := [];
    for i := 0 to |page|
      invariant PageCells(idx, page[..i], mode) == Ok(cells) && grid == Grid(cells)
    {
      if i % Columns == 0 {
        grid := grid + [[]];
      }
      var caption := Caption(idx, page[i], mode);
      if caption.Err? {
        PageCellsStop(idx, page, mode, i);
        return Err(caption.error);
      }
      var cell := Cell(page[i], caption.value);
      RenderStep(idx, page, mode, i, cells, grid);
      grid := PutInLastRow(grid, cell);
      cells := cells + [cell];
    }
    assert page[..|page|] == page;
    r := Ok(grid);
  }

  /** `cols[i % 4].image(...)`: the image goes at the end of the current row. */
  function PutInLastRow(rows: seq<seq<Cell>>, c: Cell): (g: seq<seq<Cell>>)
    requires rows != []
    ensures |g| == |rows| && g[..|g| - 1] == rows[..|rows| - 1]
    ensures g[|g| - 1] == rows[|rows| - 1] + [c]
  {
    rows[..|rows| - 1] + [rows[|rows| - 1] + [c]]
  }

  /** One pass of the page loop: the rows after the optional new row, with
      the image put in the last one, are the grid of one more cell, and the
      cells of one more id are the old ones and that cell. */
  lemma RenderStep(idx: Index, page: seq<string>, mode: CaptionMode, i: nat,
                   cells: seq<Cell>, rows: seq<seq<Cell>>)
    requires i < |page| && Caption(idx, page[i], mode).Ok?
    requires PageCells(idx, page[..i], mode) == Ok(cells)
    requires rows == if i % Columns == 0 then Grid(cells) + [[]] else Grid(cells)
    ensures rows != []
    ensures PutInLastRow(rows, Cell(page[i], Caption(idx, page[i], mode).value)) ==
            Grid(cells + [Cell(page[i], Caption(idx, page[i], mode).value)])
    ensures PageCells(idx, page[..i + 1], mode) ==
            Ok(cells + [Cell(page[i], Caption(idx, page[i], mode).value)])
  {
    assert page[..i + 1][..i] == page[..i];
    PlaceStep(cells, Cell(page[i], Caption(idx, page[i], mode).value), rows);
  }

  /** Opening a row when the position is a multiple of four and then
      putting the image in the last row builds the grid of one more image. */
  lemma PlaceStep(cells: seq<Cell>, c: Cell, rows: seq<seq<Cell>>)
    requires rows == if |cells| % Columns == 0 then Grid(cells) + [[]] else Grid(cells)
    ensures rows != []
    ensures PutInLastRow(rows, c) == Grid(cells + [c])
  {
    assert (cells + [c])[..|cells|] == cells;
    var g := Grid(cells);
    var after := PutInLastRow(rows, c);
    if |cells| % Columns == 0 {
      assert after[..|after| - 1] == g && after[|after| - 1] == [c];
      assert after == g + [[c]];
    }
  }

  /** When every earlier caption succeeds and the caption at `i` fails,
      the page fails with that caption's error. */
  lemma {:induction false} PageCellsStop(idx: Index, page: seq<string>, mode: CaptionMode, i: nat)
    requires i < |page|
    requires PageCells(idx, page[..i], mode).Ok?
    requires Caption(idx, page[i], mode).Err?
    ensures PageCells(idx, page, mode) == Err(Caption(idx, page[i], mode).error)
    decreases |page|
  {
    if i == |page| - 1 {
      assert page[..|page| - 1] == page[..i];
    } else {
      var init := page[..|page| - 1];
      assert init[..i] == page[..i] && init[i] == page[i];
      PageCellsStop(idx, init, mode, i);
    }
  }

  /** Concatenating the rows gives back the page's cells in order. */
  function Concat(rows: seq<seq<Cell>>): (r: seq<Cell>)
  {
    if rows == [] then [] else Concat(rows[..|rows| - 1]) + rows[|rows| - 1]
  }

  lemma {:induction false} GridReassembles(cells: seq<Cell>)
    ensures Concat(Grid(cells)) == cells
  {
    if cells != [] {
      var init := cells[..|cells| - 1];
      var g := Grid(init);
      GridReassembles(init);
      if |init| % Columns == 0 {
        assert (g + [[cells[|cells| - 1]]])[..|g|] == g;
      } else {
        var g' := g[..|g| - 1] + [g[|g| - 1] + [cells[|cells| - 1]]];
        assert g'[..|g'| - 1] == g[..|g| - 1];
        assert g == g[..|g| - 1] + [g[|g| - 1]];
        assert Concat(g) == Concat(g[..|g| - 1]) + g[|g| - 1];
      }
    }
  }

  /** A page holds at most 16 images, so its images fill at most four rows
      of four, below the one empty row. */
  lemma PageRows(cells: seq<Cell>)
    requires |cells| <= 16
    ensures |Grid(cells)| <= 1 + 4
  {
    GridShape(cells);
  }
}
