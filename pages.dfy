/**
 * The page label of a chunk: `_page_range` turns the pages its sentences
 * came from into "n", "first-last" or a comma-separated list.
 */
module Pages {
  import opened Text

  /** Strictly increasing: sorted, with no repeats. */
  predicate StrictlyIncreasing(xs: seq<int>) {
    forall i, j :: 0 <= i < j < |xs| ==> xs[i] < xs[j]
  }

  /** Inserts `x` into a strictly increasing list, unless it is already there. */
  function Insert(x: int, xs: seq<int>): (r: seq<int>)
    requires StrictlyIncreasing(xs)
    ensures StrictlyIncreasing(r)
    ensures forall y :: y in r <==> y == x || y in xs
  {
    if xs == [] then [x]
    else if x < xs[0] then [x] + xs
    else if x == xs[0] then xs
    else
      var r := Insert(x, xs[1..]);
      assert forall y :: y in xs[1..] ==> xs[0] < y by {
        forall y | y in xs[1..] ensures xs[0] < y {
          var j :| 0 <= j < |xs[1..]| && xs[1..][j] == y;
          assert xs[j + 1] == y;
        }
      }
      ConsIncreasing(xs[0], r);
      [xs[0]] + r
  }

  /** A head below every element of a strictly increasing list keeps it so. */
  lemma ConsIncreasing(h: int, r: seq<int>)
    requires StrictlyIncreasing(r)
    requires forall y :: y in r ==> h < y
    ensures StrictlyIncreasing([h] + r)
  {
    var l := [h] + r;
    forall i, j | 0 <= i < j < |l|
      ensures l[i] < l[j]
    {
      assert l[j] == r[j - 1];
      if i == 0 {
        assert r[j - 1] in r;
      } else {
        assert l[i] == r[i - 1];
      }
    }
  }

  /** `sorted(set(pages))`. */
  function SortedDistinct(pages: seq<int>): (r: seq<int>)
    ensures StrictlyIncreasing(r)
    ensures forall y :: y in r <==> y in pages
  {
    if pages == [] then [] else Insert(pages[0], SortedDistinct(pages[1..]))
  }

  /** A strictly increasing list is determined by its elements: there is
      only one way to sort a set. */
  lemma {:induction false} StrictlyIncreasingUnique(xs: seq<int>, ys: seq<int>)
    requires StrictlyIncreasing(xs) && StrictlyIncreasing(ys)
    requires forall y :: y in xs <==> y in ys
    ensures xs == ys
  {
    assert ys != [] ==> ys[0] in ys;
    if xs != [] {
      assert xs[0] in xs;
      assert xs[0] in ys;
      assert ys[0] in xs;
      assert xs[0] == ys[0];
      forall y
        ensures y in xs[1..] <==> y in ys[1..]
      {
        assert y in xs[1..] <==> y in xs && y != xs[0];
        assert y in ys[1..] <==> y in ys && y != ys[0];
      }
      StrictlyIncreasingUnique(xs[1..], ys[1..]);
    }
  }

  /** Each page is one more than the one before it. */
  predicate Consecutive(ps: seq<int>) {
    forall i :: 0 <= i < |ps| - 1 ==> ps[i] + 1 == ps[i + 1]
  }

  /** The decimal renderings of the pages, in order. */
  function Labels(ps: seq<int>): (ls: seq<string>)
    ensures |ls| == |ps| && forall i :: 0 <= i < |ps| ==> ls[i] == IntToString(ps[i])
  {
    if ps == [] then [] else [IntToString(ps[0])] + Labels(ps[1..])
  }

  /** `_page_range(pages)`. */
  function PageRange(pages: seq<int>): (r: string)
    ensures r == [] <==> pages == []
  {
    var ps := SortedDistinct(pages);
    if ps == [] then ""
    else if |ps| == 1 then IntToString(ps[0])
    else if Consecutive(ps) then IntToString(ps[0]) + "-" + IntToString(ps[|ps| - 1])
    else
      assert pages[0] in ps;
      Join(Labels(ps), ",")
  }

  /** The label depends only on which pages occur: neither their order
      nor repeats matter. */
  lemma PageRangeSetOnly(a: seq<int>, b: seq<int>)
    requires forall p :: p in a <==> p in b
    ensures PageRange(a) == PageRange(b)
  {
    StrictlyIncreasingUnique(SortedDistinct(a), SortedDistinct(b));
  }

  /** The first and last elements of a strictly increasing list are its
      least and greatest. */
  lemma Bounds(ps: seq<int>)
    requires StrictlyIncreasing(ps) && ps != []
    ensures forall x :: x in ps ==> ps[0] <= x <= ps[|ps| - 1]
  {
    forall x | x in ps
      ensures ps[0] <= x <= ps[|ps| - 1]
    {
      var j :| 0 <= j < |ps| && ps[j] == x;
      assert j == 0 || ps[0] < ps[j];
      assert j == |ps| - 1 || ps[j] < ps[|ps| - 1];
    }
  }

  /** One distinct page, however often it occurs, is labelled by itself. */
  lemma PageRangeSingle(pages: seq<int>, p: int)
    requires p in pages
    requires forall q :: q in pages ==> q == p
    ensures PageRange(pages) == IntToString(p)
  {
    var ps := SortedDistinct(pages);
    assert p in ps;
    assert ps[0] in pages && ps[|ps| - 1] in pages;
  }

  /** In a consecutive list every integer between the first and the last
      element is present. */
  lemma ConsecutiveGapless(ps: seq<int>)
    requires Consecutive(ps) && ps != []
    ensures forall x :: ps[0] <= x <= ps[|ps| - 1] ==> x in ps
  {
    ConsecutiveValues(ps);
    forall x | ps[0] <= x <= ps[|ps| - 1]
      ensures x in ps
    {
      assert ps[x - ps[0]] == x;
    }
  }

  /** A strictly increasing list that contains every integer between its
      first and last element is consecutive. */
  lemma GaplessConsecutive(ps: seq<int>)
    requires StrictlyIncreasing(ps) && ps != []
    requires forall x :: ps[0] <= x <= ps[|ps| - 1] ==> x in ps
    ensures Consecutive(ps)
  {
    Bounds(ps);
    forall i | 0 <= i < |ps| - 1
      ensures ps[i] + 1 == ps[i + 1]
    {
      var x := ps[i] + 1;
      assert ps[0] <= ps[i] < ps[i + 1] <= ps[|ps| - 1];
      assert x in ps;
      var j :| 0 <= j < |ps| && ps[j] == x;
      assert i < j;
    }
  }

  /** For a strictly increasing list, consecutive means that every integer
      between the first and the last element is present. */
  lemma ConsecutiveIffGapless(ps: seq<int>)
    requires StrictlyIncreasing(ps) && ps != []
    ensures Consecutive(ps) <==> forall x :: ps[0] <= x <= ps[|ps| - 1] ==> x in ps
  {
    if Consecutive(ps) {
      ConsecutiveGapless(ps);
    }
    if forall x :: ps[0] <= x <= ps[|ps| - 1] ==> x in ps {
      GaplessConsecutive(ps);
    }
  }

  /** In a consecutive list, element `i` is the first plus `i`. */
  lemma {:induction false} ConsecutiveValues(ps: seq<int>)
    requires Consecutive(ps)
    ensures forall i :: 0 <= i < |ps| ==> ps[i] == ps[0] + i
  {
    if |ps| > 1 {
      ConsecutiveValues(ps[1..]);
      assert forall i :: 1 <= i < |ps| ==> ps[i] == ps[1..][i - 1];
    }
  }

  /** Pages that fill a whole range `lo..hi` with `lo < hi` are labelled
      "lo-hi". */
  lemma PageRangeInterval(pages: seq<int>, lo: int, hi: int)
    requires lo < hi
    requires forall x :: x in pages <==> lo <= x <= hi
    ensures PageRange(pages) == IntToString(lo) + "-" + IntToString(hi)
  {
    var ps := SortedDistinct(pages);
    assert lo in ps && hi in ps;
    Bounds(ps);
    assert ps[0] in pages && ps[|ps| - 1] in pages;
    assert ps[0] == lo && ps[|ps| - 1] == hi;
    GaplessConsecutive(ps);
  }

  /** Pages `p < q` with a missing page between them are labelled by all
      the distinct pages, sorted and joined by commas, with no runs
      shortened. */
  lemma PageRangeList(pages: seq<int>, p: int, gap: int, q: int)
    requires p in pages && q in pages && p < gap < q && gap !in pages
    ensures PageRange(pages) == Join(Labels(SortedDistinct(pages)), ",")
  {
    var ps := SortedDistinct(pages);
    assert p in ps && q in ps && gap !in ps;
    Bounds(ps);
    assert ps[0] <= p < q <= ps[|ps| - 1];
    ConsecutiveIffGapless(ps);
  }

  lemma PageRangeExampleSingle()
    ensures PageRange([5, 5]) == "5"
  {
    PageRangeSingle([5, 5], 5);
  }

  lemma PageRangeExampleInterval()
    ensures PageRange([5, 3, 4, 3]) == "3-5"
  {
    PageRangeInterval([5, 3, 4, 3], 3, 5);
  }

  /** Sorting the distinct pages of a list with the elements 1, 2 and 5. */
  lemma SortedOneTwoFive(pages: seq<int>)
    requires forall y :: y in pages <==> y in [1, 2, 5]
    ensures SortedDistinct(pages) == [1, 2, 5]
  {
    StrictlyIncreasingUnique(SortedDistinct(pages), [1, 2, 5]);
  }

  lemma PageRangeExampleList(pages: seq<int>)
    requires pages == [5, 1, 2, 1]
    ensures PageRange(pages) == "1,2,5"
  {
    PageRangeList(pages, 2, 3, 5);
    SortedOneTwoFive(pages);
    LabelsOneTwoFive();
  }

  lemma LabelsOneTwoFive()
    ensures Join(Labels([1, 2, 5]), ",") == "1,2,5"
  {
    assert Labels([1, 2, 5]) == ["1", "2", "5"] by {
      assert IntToString(1) == "1" && IntToString(2) == "2" && IntToString(5) == "5";
    }
    assert Join(["1", "2", "5"], ",") == "1,2,5";
  }
}
