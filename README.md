# Inscription image search: a Dafny model of the search-and-page pipeline

`image_search.py` is a small Streamlit page for browsing a tagged collection of
inscription images. A tag file is a JSON object that maps each image id to a
record with a `tags` list and a `raw` caption. One run of `app()` does five
things:

- it builds the tag vocabulary offered in the sidebar;
- it filters the image ids, in file order, down to those whose tags include
  every selected tag;
- it shows a message when no tag is selected or nothing matches;
- otherwise it picks one page of 16 matches;
- it lays that page out in rows of four columns, each image with a caption
  chosen by the caption mode.

This project models that pipeline in Dafny and proves what it does.

- `tag_index.dfy` (module `TagIndex`): the loaded tag file as a sequence of
  `(id, record)` entries in insertion order, the order in which Python
  iterates a dict. A missing JSON key is `None`. The file also holds the two
  per-image lookups (`get_image_tags`, `get_image_captions`) and the
  `tags["tags"]` list comprehension of `app()`. Python's `KeyError` is the
  error side of a `Result`.
- `vocabulary.dfy` (module `Vocabulary`): `sorted(list(set(sum(nested_list, []))))`.
  Strings are ordered as Python orders `str`: lexicographically by code point.
  The module proves that this order is a strict total order. It also proves
  that a set of strings has exactly one strictly increasing listing, so the
  vocabulary does not depend on how Python iterates the set.
- `filtering.dfy` (module `Filtering`): the loop that builds `images_to_show`,
  written as a method. The method is proved equal to the functional `Filter`.
  Lemmas show that `Filter` keeps index order, keeps exactly the images whose
  tags include the selection, and repeats no id.
- `paging.dfy` (module `Paging`): the page bounds `[1, n // 16 + 1]`, the
  clipped slice of each page, and how the pages partition the list.
- `gallery.dfy` (module `Gallery`): the caption modes, the page loop that
  opens a new row of four columns at every fourth image (a method proved
  against `Grid`), and the shape of the resulting grid.
- `search_app.dfy` (module `SearchApp`): the whole run as a function `App`,
  the same steps as a method `RunApp`, and lemmas about what the page shows.

Behaviour of the code worth knowing:

- With no tag selected, the filter keeps every image, because the empty set
  is a subset of any set. The page then shows only the "please select"
  message.
- A record without a `"tags"` key stops the run with a `KeyError` at line 49,
  before any filtering. The per-image lookup `get_image_tags` defaults to `[]`.
- The last allowed page, `n // 16 + 1`, is empty when `n` is a multiple of 16.
- One row of columns is created before the page loop (line 81). The first
  image then opens a row of its own, so the first row always stays empty.

## Model

| member | source | states |
|---|---|---|
| `TagIndex.Keys` | image_search.py:51 | the image ids are the index's keys, one per entry, in insertion order |
| `TagIndex.Lookup` | image_search.py:19 | `tags_dict[id]` succeeds exactly for a key of the index, and then yields a record stored under that key; otherwise it raises `KeyError(id)` |
| `TagIndex.LookupAt` | image_search.py:19 | in a dict (distinct keys), looking up an entry's key yields that entry's record |
| `TagIndex.GetImageTags` | image_search.py:15-19 | succeeds exactly for a key of the index and yields that image's tag list, `[]` when the record has no "tags"; otherwise `KeyError(id)` |
| `TagIndex.GetImageCaptions` | image_search.py:23-27 | succeeds exactly for a key of the index and yields that image's "raw" caption, `""` when absent; otherwise `KeyError(id)` |
| `TagIndex.NestedTags` | image_search.py:49 | succeeds exactly when every record has a "tags" key, giving every tag list in index order; otherwise `KeyError("tags")` |
| `Vocabulary.LessIrreflexive` | image_search.py:54 | no string sorts before itself |
| `Vocabulary.LessTransitive` | image_search.py:54 | the string order used by `sorted` is transitive |
| `Vocabulary.LessTotal` | image_search.py:54 | any two distinct strings are ordered one way or the other |
| `Vocabulary.Flatten` | image_search.py:50 | `sum(nested_list, [])` holds exactly the elements of the inner lists |
| `Vocabulary.SortedUnique` | image_search.py:50 | `sorted(set(xs))` is strictly increasing and holds exactly the elements of `xs` |
| `Vocabulary.SortedListingUnique` | image_search.py:50-54 | two strictly increasing listings of the same set of strings are equal, so the result is independent of set iteration order |
| `Vocabulary.TagVocabulary` | image_search.py:49-54 | the sorted tag list offered to the tag filter is strictly increasing (no duplicates) and holds exactly the tags of some record; it is a `KeyError("tags")` exactly when some record has no "tags" key |
| `Filtering.Filter` | image_search.py:61-65 | the filter keeps at most one id per index entry |
| `Filtering.FilterImages` | image_search.py:61-65 | the loop that appends each matching id to `images_to_show` computes `Filter` |
| `Filtering.FilterIsSubsequence` | image_search.py:61-65 | the filter output is a subsequence of the image ids in index order |
| `Filtering.FilterMembers` | image_search.py:62-65 | an id is kept exactly when an entry with that id has every selected tag |
| `Filtering.FilterSelects` | image_search.py:63-64 | an id is shown exactly when `get_image_tags` succeeds for it and the selection is a subset of its tags; an omitted id of the index lacks some selected tag |
| `Filtering.FilterNoDuplicates` | image_search.py:61-65 | with distinct keys, no id is appended twice |
| `Filtering.FilterEmptySelection` | image_search.py:64 | with no tag selected the filter keeps every image, in index order |
| `Filtering.FilterExample` | image_search.py:61-65 | images tagged {x,y}, {x} and {y,z}: selecting x keeps a and b, x and y keeps a, z keeps c |
| `Paging.MaxPage` | image_search.py:76 | the page widget's maximum `n // 16 + 1` is the one page whose window starts at or before `n` and ends after it |
| `Paging.ClampPage` | image_search.py:75-77 | the page number always lies in `[1, n // 16 + 1]`; an in-range request is kept |
| `Paging.Slice` | image_search.py:82 | Python slicing with non-negative bounds: both bounds clipped to the length, element `j` is element `start + j` |
| `Paging.Page` | image_search.py:78-82 | a page holds at most 16 ids, exactly the ids from `(p-1)*16` up to `(p-1)*16+16` clipped to the list |
| `Paging.PagesThroughPrefix` | image_search.py:78-82 | pages 1 to `k` laid end to end are the first `16k` ids (clipped) |
| `Paging.PagesReassemble` | image_search.py:76-82 | concatenating the allowed pages 1 to `n // 16 + 1` reproduces the filtered list exactly |
| `Paging.PageOfPosition` | image_search.py:76-82 | position `i` lies on page `i // 16 + 1` at place `i % 16`, and lies in the window of no other page |
| `Paging.IdOnOnePage` | image_search.py:76-82 | with distinct ids, each id is on exactly one page |
| `Paging.LastPageEmpty` | image_search.py:76-82 | the last allowed page is empty exactly when the count is a multiple of 16 |
| `Paging.TwentyIdsExample` | image_search.py:76-82 | twenty ids give two pages: the first sixteen, then the last four |
| `Gallery.SplitJoin` | image_search.py:89-94 | splitting the " "-joined tags at spaces gives the tags back, when there is at least one tag and no tag holds a space |
| `Gallery.Caption` | image_search.py:88-103 | only "Tags" and "Captions" can fail, with the `KeyError` of the id; there is no caption exactly in the None mode; "InscriptionId" gives the id |
| `Gallery.CaptionFails` | image_search.py:88-103 | a caption fails exactly when the mode looks the image up and the id is not in the index |
| `Gallery.CaptionOfEntry` | image_search.py:88-103 | for an image of the index: "Tags" gives its tags joined by single spaces, "Captions" its raw caption or `""`, "InscriptionId" its id, None no caption |
| `Gallery.TagsCaptionRoundTrip` | image_search.py:88-94 | the "Tags" caption of an image splits back into its tags |
| `Gallery.PageCells` | image_search.py:82-103 | a page that succeeds has one cell per id |
| `Gallery.PageCellsOk` | image_search.py:82-103 | a page's cells succeed exactly when every caption on it does |
| `Gallery.PageCellsAt` | image_search.py:82-103 | cell `j` of a page is image `j` with its caption |
| `Gallery.PageCellsFirstError` | image_search.py:82-103 | a failing page reports the error of its first failing caption |
| `Gallery.Grid` | image_search.py:81-84 | the grid always has at least the row created before the loop |
| `Gallery.GridShape` | image_search.py:81-84 | the first row stays empty; there are `ceil(n / 4)` image rows, all of four images but the last, which holds `(n - 1) % 4 + 1` |
| `Gallery.GridPlacement` | image_search.py:81-108 | image `i` of a page is in row `1 + i // 4`, column `i % 4`; a new row starts at every `i` divisible by 4 |
| `Gallery.GridReassembles` | image_search.py:81-108 | reading the rows in order gives the page's images in order |
| `Gallery.PageRows` | image_search.py:75-84 | a page of at most 16 images spans at most four image rows below the empty first row |
| `Gallery.RenderPage` | image_search.py:81-108 | the page loop builds `Grid` of the page's captioned cells, or stops with the first caption's `KeyError` |
| `SearchApp.App` | image_search.py:47-84 | a page of images is shown only for at least one match; its total is the index size and its page number is within `[1, n // 16 + 1]` |
| `SearchApp.RunApp` | image_search.py:38-108 | `app()`'s steps (vocabulary, filter loop, message checks, page bounds, page loop) produce `App` |
| `SearchApp.PageCaptionsSucceed` | image_search.py:61-103 | every id on a page of the filter output is in the index, so no caption lookup fails |
| `SearchApp.AppFails` | image_search.py:47-103 | a run fails exactly when some record has no "tags" key, and then with `KeyError("tags")` |
| `SearchApp.NoSelectionShowsMessage` | image_search.py:61-68 | with no tag selected the filter keeps every image, yet the run shows only the "please select" message |
| `SearchApp.AppShowsPage` | image_search.py:69-108 | with matches, the run shows the match count and the page the widget holds (`ClampPage` of the request); the grid is the empty first row and then exactly that page's captioned images, in order, in at most four rows, with image `i` of the page at row `1 + i // 4`, column `i % 4` |
| `SearchApp.AppNoMatch` | image_search.py:67-70 | the "no images found" message is shown exactly when some tag is selected and no image carries them all |

## Left out

- Streamlit rendering (titles, sidebar widgets, `st.write`, `st.columns`, `.image`, the `gap` and `width` arguments). The model keeps only the values these calls take and give. The page is a `View` with its grid of captioned cells.
- The page number widget is modelled by `ClampPage`, which keeps the value within the widget's bounds. The widget's own input handling is not modelled.
- The text of the count message (lines 72-74). `View.Showing` carries the two counts it reports.
- `@st.cache_data` caching. It changes no result.
- File and directory I/O: listing `tag_files`, opening and parsing the JSON tag file, and opening the image files. The parsed tag file is an input, with JSON values already typed as lists of strings and strings. Malformed JSON and values of other types are not modelled.
- The choice of tag file: file names with ".json" stripped, and the default dropdown index 4 (lines 42-44).
- Opening and decoding each image file (lines 86, 106-107). The error raised for a missing or unreadable image file is not modelled.
- The commented-out base64 path (lines 113-116) and the `encoded_bytes` field.
- The widget's guarantee that selected tags come from the vocabulary. The filter is modelled for any selection.

Dict keys are distinct. The members whose promises depend on this require it
(`DistinctKeys`): `TagIndex.LookupAt`, `Filtering.FilterImages`,
`Filtering.FilterSelects`, `Filtering.FilterNoDuplicates`,
`Gallery.CaptionOfEntry`, `Gallery.TagsCaptionRoundTrip` and
`SearchApp.RunApp`. The other lookups are defined for any index. They return
the record of the first entry with the id, which is the dict's entry when keys
are distinct. `View.Showing` reports the number of entries as the total, which
is `len(tags_dict)` when keys are distinct.
