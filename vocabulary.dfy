/** The tag vocabulary offered by the tag filter: the union of every record's
    tag list, without duplicates, in Python's `sorted` order for strings
    (lexicographic on code points). */
module Vocabulary {
  import opened TagIndex

  /** Python's `<` on str: lexicographic comparison of code points, a proper
      prefix being smaller. */
  predicate Less(a: string, b: string)
  {
    if |a| == 0 then |b| > 0
    else if |b| == 0 then false
    else a[0] < b[0] || (a[0] == b[0] && Less(a[1..], b[1..]))
  }

  lemma {:induction false} LessIrreflexive(a: string)
    ensures !Less(a, a)
  {
    if |a| > 0 {
      LessIrreflexive(a[1..]);
    }
  }

  lemma {:induction false} LessTransitive(a: string, b: string, c: string)
    requires Less(a, b) && Less(b, c)
    ensures Less(a, c)
  {
    if |a| > 0 && a[0] == b[0] && b[0] == c[0] {
      LessTransitive(a[1..], b[1..], c[1..]);
    }
  }

  /** Any two distinct strings are ordered one way or the other. */
  lemma {:induction false} LessTotal(a: string, b: string)
    requires a != b
    ensures Less(a, b) || Less(b, a)
  {
    if |a| > 0 && |b| > 0 && a[0] == b[0] {
      assert a == [a[0]] + a[1..] && b == [b[0]] + b[1..];
      LessTotal(a[1..], b[1..]);
    }
  }

  /** Strictly increasing, hence also free of duplicates. */
  predicate Sorted(s: seq<string>)
  {
    forall i, j :: 0 <= i < j < |s| ==> Less(s[i], s[j])
  }

  /** Inserts `x` at its place in a sorted sequence, unless it is there. */
  function Insert(x: string, s: seq<string>): (r: seq<string>)
    requires Sorted(s)
    ensures Sorted(r)
    ensures forall t :: t in r <==> t == x || t in s
  {
    if s == [] then [x]
    else if x == s[0] then s
    else if Less(x, s[0]) then
      HeadBelowTail(s);
      forall t | t in s[1..] ensures Less(x, t) {
        LessTransitive(x, s[0], t);
      }
      assert s == [s[0]] + s[1..];
      PrependSorted(x, s);
      [x] + s
    else
      LessTotal(x, s[0]);
      var rest := Insert(x, s[1..]);
      HeadBelowTail(s);
      PrependSorted(s[0], rest);
      [s[0]] + rest
  }

  /** The head of a sorted sequence is below everything in its tail. */
  lemma HeadBelowTail(s: seq<string>)
    requires Sorted(s) && s != []
    ensures forall t :: t in s[1..] ==> Less(s[0], t)
  {
    forall t | t in s[1..] ensures Less(s[0], t) {
      var k :| 0 <= k < |s[1..]| && s[1..][k] == t;
      assert s[k + 1] == t;
    }
  }

  /** A string below every element of a sorted sequence may go in front. */
  lemma PrependSorted(x: string, s: seq<string>)
    requires Sorted(s)
    requires forall t :: t in s ==> Less(x, t)
    ensures Sorted([x] + s)
  {
    var r := [x] + s;
    forall i, j | 0 <= i < j < |r| ensures Less(r[i], r[j]) {
      if i == 0 {
        assert r[j] == s[j - 1] && r[j] in s;
      } else {
        assert r[i] == s[i - 1] && r[j] == s[j - 1];
      }
    }
  }

  /** `sorted(set(xs))`, computed by inserting the elements one at a time. */
  function SortedUnique(xs: seq<string>): (r: seq<string>)
    ensures Sorted(r)
    ensures forall t :: t in r <==> t in xs
  {
    if xs == [] then []
    else
      var r := Insert(xs[|xs| - 1], SortedUnique(xs[..|xs| - 1]));
      assert forall t :: t in xs <==> t == xs[|xs| - 1] || t in xs[..|xs| - 1] by {
        assert xs == xs[..|xs| - 1] + [xs[|xs| - 1]];
      }
      r
  }

  /** A finite set of strings has exactly one strictly increasing listing,
      so the vocabulary does not depend on the iteration order of the
      Python set it is built from. */
  lemma {:induction false} SortedListingUnique(a: seq<string>, b: seq<string>)
    requires Sorted(a) && Sorted(b)
    requires forall t :: t in a <==> t in b
    ensures a == b
  {
    if a != [] || b != [] {
      assert a != [] && b != [] by {
        if a != [] { assert a[0] in b; }
        if b != [] { assert b[0] in a; }
      }
      if a[0] != b[0] {
        assert a[0] in b;
        assert b[0] in a;
        var i :| 0 <= i < |b| && b[i] == a[0];
        var j :| 0 <= j < |a| && a[j] == b[0];
        assert i > 0 && j > 0;
        assert Less(b[0], a[0]) && Less(a[0], b[0]);
        LessTransitive(a[0], b[0], a[0]);
        LessIrreflexive(a[0]);
      }
      forall t ensures t in a[1..] <==> t in b[1..] {
        TailMembers(a, t);
        TailMembers(b, t);
      }
      SortedListingUnique(a[1..], b[1..]);
    }
  }

  /** The tail of a sorted sequence holds everything but its head. */
  lemma TailMembers(s: seq<string>, t: string)
    requires Sorted(s) && s != []
    ensures t in s[1..] <==> t in s && t != s[0]
  {
    if t in s[1..] {
      var k :| 0 <= k < |s[1..]| && s[1..][k] == t;
      assert Less(s[0], s[k + 1]);
      LessIrreflexive(s[0]);
    }
    if t in s && t != s[0] {
      var k :| 0 <= k < |s| && s[k] == t;
      assert s[1..][k - 1] == t;
    }
  }

  /** `sum(nested_list, [])`: the lists concatenated in order. */
  function Flatten(nested: seq<seq<string>>): (r: seq<string>)
    ensures forall t :: t in r <==> exists i :: 0 <= i < |nested| && t in nested[i]
  {
    if nested == [] then []
    else
      var rest := Flatten(nested[1..]);
      forall t, i | 1 <= i < |nested| && t in nested[i]
        ensures t in rest
      {
        assert nested[1..][i - 1] == nested[i];
      }
      nested[0] + rest
  }

  /** `sorted(list(set(sum(nested_list, []))))`: the tags that occur in some
      record, each once, in increasing order; KeyError when a record has no
      "tags" key. */
  function TagVocabulary(idx: Index): (r: Result<seq<string>>)
    ensures r.Ok? <==> forall i :: 0 <= i < |idx| ==> idx[i].rec.tags.Some?
    ensures r.Err? ==> r.error == KeyError("tags")
    ensures r.Ok? ==> Sorted(r.value)
    ensures r.Ok? ==> forall t :: t in r.value <==>
                        exists i :: 0 <= i < |idx| && t in idx[i].rec.TagList()
  {
    match NestedTags(idx)
    case Err(e) => Err(e)
    case Ok(nested) => Ok(SortedUnique(Flatten(nested)))
  }
}
