/** Paging of the filtered image ids: 16 ids to a page, pages numbered
    from 1, each page a clipped slice of the list. */
module Paging {
  import opened TagIndex

  const PageSize: nat := 16

  function Min(a: int, b: int): (m: int)
  {
    if a <= b then a else b
  }

  /** The page widget's upper bound, `n // 16 + 1`: the one page number
      whose window starts at or before `n` and ends after it. */
  function MaxPage(n: nat): (m: nat)
    ensures m >= 1
    ensures (m - 1) * PageSize <= n < m * PageSize
  {
    n / PageSize + 1
  }

  /** The page number widget keeps its value within `[1, MaxPage(n)]`: an
      in-range request is taken as it is, any other is moved to the nearer
      bound. */
  function ClampPage(requested: int, n: nat): (p: nat)
    ensures 1 <= p <= MaxPage(n)
    ensures 1 <= requested <= MaxPage(n) ==> p == requested
    ensures requested < 1 ==> p == 1
    ensures requested > MaxPage(n) ==> p == MaxPage(n)
  {
    if requested < 1 then 1
    else if requested > MaxPage(n) then MaxPage(n)
    else requested
  }

  /** Python's `s[start:end]` for non-negative bounds: both bounds are
      clipped to the length, and a window that starts at or after its end
      is empty. */
  function Slice(s: seq<string>, start: nat, end: nat): (r: seq<string>)
    ensures |r| == if start < end && start < |s| then Min(end, |s|) - start else 0
    ensures forall j :: 0 <= j < |r| ==> start + j < |s| && r[j] == s[start + j]
  {
    var lo := Min(start, |s|);
    var hi := Min(end, |s|);
    if lo < hi then s[lo..hi] else []
  }

  /** `images_to_show[start_index:end_index]` for page `p`: at most 16 ids,
      those at positions `(p-1)*16` onwards. */
  function Page(ids: seq<string>, p: nat): (r: seq<string>)
    requires p >= 1
    ensures |r| <= PageSize
    ensures |r| == if |ids| <= (p - 1) * PageSize then 0
                   else Min(PageSize, |ids| - (p - 1) * PageSize)
    ensures forall j :: 0 <= j < |r| ==> (p - 1) * PageSize + j < |ids| &&
                                         r[j] == ids[(p - 1) * PageSize + j]
  {
    var start := (p - 1) * PageSize;
    Slice(ids, start, start + PageSize)
  }

  /** Pages 1 to `k` laid end to end. */
  function PagesThrough(ids: seq<string>, k: nat): (r: seq<string>)
  {
    if k == 0 then [] else PagesThrough(ids, k - 1) + Page(ids, k)
  }

  /** The first `k` pages hold exactly the first `16 * k` ids. */
  lemma {:induction false} PagesThroughPrefix(ids: seq<string>, k: nat)
    ensures PagesThrough(ids, k) == ids[..Min(k * PageSize, |ids|)]
  {
    if k > 0 {
      PagesThroughPrefix(ids, k - 1);
      var lo := Min((k - 1) * PageSize, |ids|);
      var hi := Min(k * PageSize, |ids|);
      assert Page(ids, k) == ids[lo..hi];
      assert ids[..lo] + ids[lo..hi] == ids[..hi];
    }
  }

  /** Concatenating the allowed pages 1 to `n // 16 + 1` in order gives back
      the filtered list exactly. */
  lemma PagesReassemble(ids: seq<string>)
    ensures PagesThrough(ids, MaxPage(|ids|)) == ids
  {
    PagesThroughPrefix(ids, MaxPage(|ids|));
  }

  /** Position `i` of the list is on page `i // 16 + 1`, at place `i % 16`,
      and on no other page. */
  lemma PageOfPosition(ids: seq<string>, i: nat, p: nat)
    requires i < |ids| && p >= 1
    ensures 1 <= i / PageSize + 1 <= MaxPage(|ids|)
    ensures i % PageSize < |Page(ids, i / PageSize + 1)|
    ensures Page(ids, i / PageSize + 1)[i % PageSize] == ids[i]
    ensures (p - 1) * PageSize <= i < (p - 1) * PageSize + |Page(ids, p)| <==>
            p == i / PageSize + 1
  {
  }

  /** With distinct ids, each id is shown on exactly one page. */
  lemma IdOnOnePage(ids: seq<string>, i: nat, p: nat)
    requires NoDuplicates(ids)
    requires i < |ids| && p >= 1
    ensures ids[i] in Page(ids, p) <==> p == i / PageSize + 1
  {
    PageOfPosition(ids, i, p);
    if ids[i] in Page(ids, p) {
      var j :| 0 <= j < |Page(ids, p)| && Page(ids, p)[j] == ids[i];
      assert ids[(p - 1) * PageSize + j] == ids[i];
    }
  }

  /** The last allowed page is empty exactly when the count is a multiple of
      16 (zero included). */
  lemma LastPageEmpty(ids: seq<string>)
    ensures Page(ids, MaxPage(|ids|)) == [] <==> |ids| % PageSize == 0
  {
  }

  /** Twenty ids: page 1 shows the first sixteen, page 2 the last four. */
  lemma TwentyIdsExample(ids: seq<string>)
    requires |ids| == 20
    ensures MaxPage(|ids|) == 2
    ensures Page(ids, 1) == ids[..16] && Page(ids, 2) == ids[16..]
  {
  }
}
