/** One run of the search page: build the tag vocabulary, filter the images
    by the selected tags, then either show a message or lay out the chosen
    page of matches with their captions. */
module SearchApp {
  import opened TagIndex
  import opened Vocabulary
  import opened Filtering
  import opened Paging
  import opened Gallery

  /** What the page shows below the sidebar. */
  datatype View =
    | PleaseSelect                    // no tag selected
    | NoImages                        // tags selected, no image has them all
    | Showing(matched: nat, total: nat, page: nat, grid: seq<seq<Cell>>)

  /** The outcome of one run for a tag file, a tag selection, a caption mode
      and the page number asked of the page widget. */
  function App(idx: Index, selected: seq<string>, mode: CaptionMode, requested: int): (r: Result<View>)
    ensures r.Ok? && r.value.Showing? ==>
              1 <= r.value.matched && r.value.total == |idx| &&
              1 <= r.value.page <= MaxPage(r.value.matched)
  {
    match TagVocabulary(idx)
    case Err(e) => Err(e)
    case Ok(_) =>
      var shown := Filter(idx, selected);
      if selected == [] then Ok(PleaseSelect)
      else if shown == [] then Ok(NoImages)
      else
        var p := ClampPage(requested, |shown|);
        match PageCells(idx, Page(shown, p), mode)
        case Err(e) => Err(e)
        case Ok(cells) => Ok(Showing(|shown|, |idx|, p, Grid(cells)))
  }

  /** `app()`: the same steps in the same order, with the filter loop and
      the page loop as they are written. */
  method RunApp(idx: Index, selected: seq<string>, mode: CaptionMode, requested: int)
    returns (r: Result<View>)
    requires DistinctKeys(idx)
    ensures r == App(idx, selected, mode, requested)
  {
    var vocabulary := TagVocabulary(idx);
    if vocabulary.Err? {
      return Err(vocabulary.error);
    }
    var shown := FilterImages(idx, selected);
    if selected == [] {
      return Ok(PleaseSelect);
    }
    if shown == [] {
      return Ok(NoImages);
    }
    var pageNumber := ClampPage(requested, |shown|);
    var startIndex := (pageNumber - 1) * PageSize;
    var endIndex := startIndex + PageSize;
    var page := Slice(shown, startIndex, endIndex);
    assert page == Page(shown, pageNumber);
    var grid := RenderPage(idx, page, mode);
    if grid.Err? {
      return Err(grid.error);
    }
    r := Ok(Showing(|shown|, |idx|, pageNumber, grid.value));
  }

  /** Every id on a page of the filter output is in the index, so no caption
      lookup on it fails. */
  lemma PageCaptionsSucceed(idx: Index, selected: seq<string>, p: nat, mode: CaptionMode)
    requires p >= 1
    ensures PageCells(idx, Page(Filter(idx, selected), p), mode).Ok?
  {
    var page := Page(Filter(idx, selected), p);
    forall j | 0 <= j < |page| ensures Caption(idx, page[j], mode).Ok? {
      var id := page[j];
      assert id in Filter(idx, selected);
      FilterMembers(idx, selected, id);
      var i :| 0 <= i < |idx| && idx[i].id == id && Matches(selected, idx[i].rec.TagList());
      assert Keys(idx)[i] == id;
      CaptionFails(idx, id, mode);
    }
    PageCellsOk(idx, page, mode);
  }

  /** The run fails only with the KeyError of a record that has no "tags"
      key; the caption lookups never fail. */
  lemma AppFails(idx: Index, selected: seq<string>, mode: CaptionMode, requested: int)
    ensures App(idx, selected, mode, requested).Err? <==>
            exists i :: 0 <= i < |idx| && idx[i].rec.tags.None?
    ensures App(idx, selected, mode, requested).Err? ==>
            App(idx, selected, mode, requested).error == KeyError("tags")
  {
    var shown := Filter(idx, selected);
    if selected != [] && shown != [] {
      PageCaptionsSucceed(idx, selected, ClampPage(requested, |shown|), mode);
    }
  }

  /** With no tag selected the filter keeps every image, yet the page only
      asks for a selection. */
  lemma NoSelectionShowsMessage(idx: Index, mode: CaptionMode, requested: int)
    requires forall i :: 0 <= i < |idx| ==> idx[i].rec.tags.Some?
    ensures Filter(idx, []) == Keys(idx)
    ensures App(idx, [], mode, requested) == Ok(PleaseSelect)
  {
    FilterEmptySelection(idx);
  }

  /** When some image carries every selected tag, the page shows the page
      the page widget holds, and nothing else: image `i` of that page, with
      its caption, in row `1 + i / 4` and column `i % 4`, below the empty
      first row, in at most four image rows. */
  lemma AppShowsPage(idx: Index, selected: seq<string>, mode: CaptionMode, requested: int, i: nat)
    requires forall k :: 0 <= k < |idx| ==> idx[k].rec.tags.Some?
    requires selected != [] && Filter(idx, selected) != []
    ensures App(idx, selected, mode, requested).Ok?
    ensures App(idx, selected, mode, requested).value.Showing?
    ensures App(idx, selected, mode, requested).value.matched == |Filter(idx, selected)|
    ensures App(idx, selected, mode, requested).value.page == ClampPage(requested, |Filter(idx, selected)|)
    ensures |App(idx, selected, mode, requested).value.grid| <= 5
    ensures
      var v := App(idx, selected, mode, requested).value;
      var page := Page(Filter(idx, selected), v.page);
      PageCells(idx, page, mode).Ok? &&
      Concat(v.grid) == PageCells(idx, page, mode).value &&
      1 <= |v.grid| && v.grid[0] == []
    ensures
      var v := App(idx, selected, mode, requested).value;
      var page := Page(Filter(idx, selected), v.page);
      i < |page| ==>
        1 + i / Columns < |v.grid| && i % Columns < |v.grid[1 + i / Columns]| &&
        Caption(idx, page[i], mode).Ok? &&
        v.grid[1 + i / Columns][i % Columns] == Cell(page[i], Caption(idx, page[i], mode).value)
  {
    var shown := Filter(idx, selected);
    var p := ClampPage(requested, |shown|);
    var page := Page(shown, p);
    PageCaptionsSucceed(idx, selected, p, mode);
    var cells := PageCells(idx, page, mode).value;
    PageRows(cells);
    GridReassembles(cells);
    GridShape(cells);
    if i < |page| {
      GridPlacement(cells, i);
      PageCellsAt(idx, page, mode, i);
    }
  }

  /** The "no images found" message appears exactly when some tag is
      selected and no image carries all the selected tags. */
  lemma AppNoMatch(idx: Index, selected: seq<string>, mode: CaptionMode, requested: int)
    requires forall k :: 0 <= k < |idx| ==> idx[k].rec.tags.Some?
    ensures App(idx, selected, mode, requested) == Ok(NoImages) <==>
            selected != [] && Filter(idx, selected) == []
  {
    if selected != [] && Filter(idx, selected) != [] {
      AppShowsPage(idx, selected, mode, requested, 0);
    }
  }
}
