/** The tag filter: the images whose tag set contains every selected tag,
    in index order. */
module Filtering {
  import opened TagIndex

  /** `set(selected).issubset(set(tags))`. */
  predicate Matches(selected: seq<string>, tags: seq<string>)
  {
    forall t :: t in selected ==> t in tags
  }

  /** The images kept by the filter, one entry at a time from the front of
      the index; each image is judged by its own record's tag list. */
  function Filter(idx: Index, selected: seq<string>): (r: seq<string>)
    ensures |r| <= |idx|
  {
    if idx == [] then []
    else
      var last := idx[|idx| - 1];
      Filter(idx[..|idx| - 1], selected) +
        (if Matches(selected, last.rec.TagList()) then [last.id] else [])
  }

  /** The loop that builds `images_to_show`: walk the ids in index order,
      look up each image's tags and append the id when the selection is a
      subset of them. */
  method FilterImages(idx: Index, selected: seq<string>) returns (shown: seq<string>)
    requires DistinctKeys(idx)
    ensures shown == Filter(idx, selected)
  {
    var filenames := Keys(idx);
    shown := [];
    for k := 0 to |filenames|
      invariant shown == Filter(idx[..k], selected)
    {
      var filename := filenames[k];
      LookupAt(idx, k);
      var imageTags := GetImageTags(idx, filename).value;
      if Matches(selected, imageTags) {
        shown := shown + [filename];
      }
      assert idx[..k + 1][..k] == idx[..k];
    }
    assert idx[..|idx|] == idx;
  }

  /** `xs` is obtained from `ys` by deleting elements, keeping the order. */
  predicate IsSubsequence(xs: seq<string>, ys: seq<string>)
  {
    if xs == [] then true
    else if ys == [] then false
    else if xs[|xs| - 1] == ys[|ys| - 1] then IsSubsequence(xs[..|xs| - 1], ys[..|ys| - 1])
    else IsSubsequence(xs, ys[..|ys| - 1])
  }

  /** Dropping one more element of `ys` keeps `xs` a subsequence. */
  lemma {:induction false} SubsequenceOfLonger(xs: seq<string>, ys: seq<string>, y: string)
    requires IsSubsequence(xs, ys)
    ensures IsSubsequence(xs, ys + [y])
    decreases |ys|, 1
  {
    if xs != [] && xs[|xs| - 1] == y {
      assert (ys + [y])[..|ys|] == ys;
      SubsequenceDropLast(xs, ys);
    } else {
      assert (ys + [y])[..|ys|] == ys;
    }
  }

  /** A subsequence without its last element is still a subsequence. */
  lemma {:induction false} SubsequenceDropLast(xs: seq<string>, ys: seq<string>)
    requires xs != [] && IsSubsequence(xs, ys)
    ensures IsSubsequence(xs[..|xs| - 1], ys)
    decreases |ys|, 0
  {
    if xs[|xs| - 1] == ys[|ys| - 1] {
      SubsequenceOfLonger(xs[..|xs| - 1], ys[..|ys| - 1], ys[|ys| - 1]);
      assert ys[..|ys| - 1] + [ys[|ys| - 1]] == ys;
    } else {
      SubsequenceDropLast(xs, ys[..|ys| - 1]);
      SubsequenceOfLonger(xs[..|xs| - 1], ys[..|ys| - 1], ys[|ys| - 1]);
      assert ys[..|ys| - 1] + [ys[|ys| - 1]] == ys;
    }
  }

  /** The filter keeps ids in index order: its output is a subsequence of
      the index's keys. */
  lemma {:induction false} FilterIsSubsequence(idx: Index, selected: seq<string>)
    ensures IsSubsequence(Filter(idx, selected), Keys(idx))
  {
    if idx != [] {
      var prefix := idx[..|idx| - 1];
      var last := idx[|idx| - 1];
      FilterIsSubsequence(prefix, selected);
      if Matches(selected, last.rec.TagList()) {
        assert Filter(idx, selected) == Filter(prefix, selected) + [last.id];
        assert (Keys(prefix) + [last.id])[..|Keys(prefix)|] == Keys(prefix);
      } else {
        assert Filter(idx, selected) == Filter(prefix, selected);
        SubsequenceOfLonger(Filter(prefix, selected), Keys(prefix), last.id);
      }
    }
  }

  /** An id is kept exactly when some entry with that id carries every
      selected tag. */
  lemma {:induction false} FilterMembers(idx: Index, selected: seq<string>, id: string)
    ensures id in Filter(idx, selected) <==>
            exists i :: 0 <= i < |idx| && idx[i].id == id && Matches(selected, idx[i].rec.TagList())
  {
    if idx != [] {
      var prefix := idx[..|idx| - 1];
      FilterMembers(prefix, selected, id);
      if id in Filter(idx, selected) && id !in Filter(prefix, selected) {
        assert Matches(selected, idx[|idx| - 1].rec.TagList()) && idx[|idx| - 1].id == id;
      }
      if exists i :: 0 <= i < |idx| && idx[i].id == id && Matches(selected, idx[i].rec.TagList()) {
        var i :| 0 <= i < |idx| && idx[i].id == id && Matches(selected, idx[i].rec.TagList());
        if i < |idx| - 1 {
          assert prefix[i] == idx[i];
        }
      }
    }
  }

  /** What the loop decides for each image id: it is shown exactly when it
      is in the index and every selected tag is among its looked-up tags;
      an id of the index that is left out lacks some selected tag. */
  lemma FilterSelects(idx: Index, selected: seq<string>, id: string)
    requires DistinctKeys(idx)
    ensures id in Filter(idx, selected) <==>
            GetImageTags(idx, id).Ok? && Matches(selected, GetImageTags(idx, id).value)
    ensures id in Keys(idx) && id !in Filter(idx, selected) ==>
            exists t :: t in selected && t !in GetImageTags(idx, id).value
  {
    FilterMembers(idx, selected, id);
    if id in Keys(idx) {
      var i :| 0 <= i < |idx| && Keys(idx)[i] == id;
      LookupAt(idx, i);
    }
  }

  /** Each image appears in the filter output at most once. */
  lemma {:induction false} FilterNoDuplicates(idx: Index, selected: seq<string>)
    requires DistinctKeys(idx)
    ensures NoDuplicates(Filter(idx, selected))
  {
    if idx != [] {
      var prefix := idx[..|idx| - 1];
      var last := idx[|idx| - 1];
      assert DistinctKeys(prefix) by {
        forall a, b | 0 <= a < b < |prefix| ensures prefix[a].id != prefix[b].id {
          assert prefix[a] == idx[a] && prefix[b] == idx[b];
        }
      }
      FilterNoDuplicates(prefix, selected);
      assert last.id !in Filter(prefix, selected) by {
        FilterMembers(prefix, selected, last.id);
        forall i | 0 <= i < |prefix| ensures prefix[i].id != last.id {
          assert prefix[i] == idx[i];
        }
      }
    }
  }

  /** With no tag selected every image passes the subset test, since the
      empty set is a subset of any set. */
  lemma {:induction false} FilterEmptySelection(idx: Index)
    ensures Filter(idx, []) == Keys(idx)
  {
    if idx != [] {
      var prefix := idx[..|idx| - 1];
      FilterEmptySelection(prefix);
      assert Matches([], idx[|idx| - 1].rec.TagList());
    }
  }

  /** A worked example: three images tagged {x, y}, {x} and {y, z}. */
  lemma FilterExample()
    ensures
      var idx := [Entry("a", Record(Some(["x", "y"]), None)),
                  Entry("b", Record(Some(["x"]), None)),
                  Entry("c", Record(Some(["y", "z"]), None))];
      Filter(idx, ["x"]) == ["a", "b"] &&
      Filter(idx, ["x", "y"]) == ["a"] &&
      Filter(idx, ["z"]) == ["c"]
  {
    var idx := [Entry("a", Record(Some(["x", "y"]), None)),
                Entry("b", Record(Some(["x"]), None)),
                Entry("c", Record(Some(["y", "z"]), None))];
    assert idx[..2] == idx[..3][..2] && idx[..1] == idx[..2][..1] && idx[..1][..0] == [];
    assert "x" !in ["y", "z"] && "y" !in ["x"] && "z" !in ["x", "y"] && "z" !in ["x"];
    assert !Matches(["x"], ["y", "z"]) && !Matches(["x", "y"], ["x"]);
    assert !Matches(["z"], ["x", "y"]) && !Matches(["z"], ["x"]);
    assert !Matches(["x", "y"], ["y", "z"]);
  }
}
