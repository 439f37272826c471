/** The year grouping of the archive page src/app/archive/page.tsx: posts
    (already newest first) are grouped by the year of their date, and the
    years are listed newest first. The year of a post is an argument, since
    date parsing is outside the model. */
module Archive {

  /** The posts of year `y`, in the order they come. */
  function InYear<T>(posts: seq<T>, yearOf: T -> int, y: int): (r: seq<T>)
    ensures |r| <= |posts|
    ensures forall i :: 0 <= i < |r| ==> yearOf(r[i]) == y && r[i] in posts
    ensures forall p :: p in posts && yearOf(p) == y ==> p in r
    ensures (forall i :: 0 <= i < |posts| ==> yearOf(posts[i]) != y) ==> r == []
    decreases |posts|
  {
    if posts == [] then []
    else
      var init, last := posts[..|posts| - 1], posts[|posts| - 1];
      assert posts == init + [last];
      InYear(init, yearOf, y) + (if yearOf(last) == y then [last] else [])
  }

  /** The `reduce` of the page: each post is appended to the list of its
      year, which is created on the year's first post. */
  function GroupByYear<T>(posts: seq<T>, yearOf: T -> int): (groups: map<int, seq<T>>)
    ensures forall y :: y in groups <==> exists i :: 0 <= i < |posts| && yearOf(posts[i]) == y
    ensures forall y :: y in groups ==> groups[y] == InYear(posts, yearOf, y)
    decreases |posts|
  {
    if posts == [] then map[]
    else
      var init, last := posts[..|posts| - 1], posts[|posts| - 1];
      var acc := GroupByYear(init, yearOf);
      var y := yearOf(last);
      GroupStep(posts, yearOf, acc);
      acc[y := (if y in acc then acc[y] else []) + [last]]
  }

  /** Appending the last post to the grouping of the ones before it groups
      them all. */
  lemma GroupStep<T>(posts: seq<T>, yearOf: T -> int, acc: map<int, seq<T>>)
    requires posts != []
    requires var init := posts[..|posts| - 1];
             && (forall y :: y in acc <==> exists i :: 0 <= i < |init| && yearOf(init[i]) == y)
             && (forall y :: y in acc ==> acc[y] == InYear(init, yearOf, y))
    ensures var init, last := posts[..|posts| - 1], posts[|posts| - 1];
            var y := yearOf(last);
            var groups := acc[y := (if y in acc then acc[y] else []) + [last]];
            && (forall y' :: y' in groups <==> exists i :: 0 <= i < |posts| && yearOf(posts[i]) == y')
            && (forall y' :: y' in groups ==> groups[y'] == InYear(posts, yearOf, y'))
  {
    var init, last := posts[..|posts| - 1], posts[|posts| - 1];
    var y := yearOf(last);
    var groups := acc[y := (if y in acc then acc[y] else []) + [last]];
    assert forall i :: 0 <= i < |init| ==> init[i] == posts[i];
    forall y' | y' in groups
      ensures groups[y'] == InYear(posts, yearOf, y')
    {
      assert InYear(posts, yearOf, y') == InYear(init, yearOf, y') + (if y == y' then [last] else []);
      if y' == y && y !in acc {
        assert InYear(init, yearOf, y) == [];
      }
    }
    forall y' | exists i :: 0 <= i < |posts| && yearOf(posts[i]) == y'
      ensures y' in groups
    {
      var i :| 0 <= i < |posts| && yearOf(posts[i]) == y';
      if i < |init| {
        assert yearOf(init[i]) == y';
      }
    }
  }

  /** The posts of a group keep the order they had in the listing: the
      group is the listing with the other years' posts left out. */
  lemma {:induction false} GroupKeepsOrder<T>(posts: seq<T>, yearOf: T -> int, y: int, i: nat, j: nat)
    requires i < j < |InYear(posts, yearOf, y)|
    ensures exists a, b :: 0 <= a < b < |posts|
              && posts[a] == InYear(posts, yearOf, y)[i] && posts[b] == InYear(posts, yearOf, y)[j]
    decreases |posts|
  {
    var init, last := posts[..|posts| - 1], posts[|posts| - 1];
    var g, gi := InYear(posts, yearOf, y), InYear(init, yearOf, y);
    assert posts == init + [last];
    if j < |gi| {
      GroupKeepsOrder(init, yearOf, y, i, j);
      var a, b :| 0 <= a < b < |init| && init[a] == gi[i] && init[b] == gi[j];
      assert posts[a] == g[i] && posts[b] == g[j];
    } else {
      assert g[j] == last;
      assert g[i] == gi[i] && gi[i] in init;
      var a :| 0 <= a < |init| && init[a] == gi[i];
      assert posts[a] == g[i] && posts[|posts| - 1] == g[j];
    }
  }

  /** How many entries of `ys` equal `y`. */
  function Occurrences(ys: seq<int>, y: int): nat {
    if ys == [] then 0 else (if ys[0] == y then 1 else 0) + Occurrences(ys[1..], y)
  }

  /** The sizes of the groups of the years `ys`, added up. */
  function SizeSum<T>(posts: seq<T>, yearOf: T -> int, ys: seq<int>): nat {
    if ys == [] then 0 else |InYear(posts, yearOf, ys[0])| + SizeSum(posts, yearOf, ys[1..])
  }

  /** One more post adds one to the group of its year, once for each time
      that year is listed. */
  lemma {:induction false} SizeSumStep<T>(posts: seq<T>, p: T, yearOf: T -> int, ys: seq<int>)
    ensures SizeSum(posts + [p], yearOf, ys) == SizeSum(posts, yearOf, ys) + Occurrences(ys, yearOf(p))
    decreases |ys|
  {
    if ys != [] {
      var extended := posts + [p];
      assert extended[..|extended| - 1] == posts;
      SizeSumStep(posts, p, yearOf, ys[1..]);
    }
  }

  predicate Distinct(ys: seq<int>) {
    forall i, j :: 0 <= i < j < |ys| ==> ys[i] != ys[j]
  }

  lemma {:induction false} OccursOnce(ys: seq<int>, y: int)
    requires Distinct(ys) && y in ys
    ensures Occurrences(ys, y) == 1
    decreases |ys|
  {
    if ys[0] == y {
      OccursNot(ys[1..], y);
    } else {
      OccursOnce(ys[1..], y);
    }
  }

  lemma {:induction false} OccursNot(ys: seq<int>, y: int)
    requires y !in ys
    ensures Occurrences(ys, y) == 0
    decreases |ys|
  {
    if ys != [] {
      OccursNot(ys[1..], y);
    }
  }

  /** Every post lands in exactly one group: over any list of distinct years
      that covers them all, the group sizes add up to the number of posts. */
  lemma {:induction false} GroupSizesAddUp<T>(posts: seq<T>, yearOf: T -> int, ys: seq<int>)
    requires Distinct(ys)
    requires forall i :: 0 <= i < |posts| ==> yearOf(posts[i]) in ys
    ensures SizeSum(posts, yearOf, ys) == |posts|
    decreases |posts|
  {
    if posts == [] {
      EmptySizeSum(yearOf, ys);
    } else {
      var init, last := posts[..|posts| - 1], posts[|posts| - 1];
      assert posts == init + [last];
      GroupSizesAddUp(init, yearOf, ys);
      SizeSumStep(init, last, yearOf, ys);
      OccursOnce(ys, yearOf(last));
    }
  }

  lemma {:induction false} EmptySizeSum<T>(yearOf: T -> int, ys: seq<int>)
    ensures SizeSum([], yearOf, ys) == 0
    decreases |ys|
  {
    if ys != [] {
      EmptySizeSum(yearOf, ys[1..]);
    }
  }

  predicate StrictlyDescending(ys: seq<int>) {
    forall i, j :: 0 <= i < j < |ys| ==> ys[i] > ys[j]
  }

  /** Adds `y` to a strictly descending list of years unless present. */
  function InsertYear(y: int, ys: seq<int>): (r: seq<int>)
    requires StrictlyDescending(ys)
    ensures StrictlyDescending(r)
    ensures forall x :: x in r <==> x in ys || x == y
    decreases |ys|
  {
    if ys == [] then [y]
    else if y > ys[0] then [y] + ys
    else if y == ys[0] then ys
    else
      var rest := InsertYear(y, ys[1..]);
      var r := [ys[0]] + rest;
      TailBelowHead(ys);
      assert forall i :: 0 < i < |r| ==> r[i] == rest[i - 1] && rest[i - 1] in rest;
      r
  }

  /** `Object.keys(postsByYear).map(Number).sort((a, b) => b - a)`: the
      years that have a group, newest first. */
  function Years<T>(posts: seq<T>, yearOf: T -> int): (ys: seq<int>)
    ensures StrictlyDescending(ys)
    ensures forall y :: y in ys <==> y in GroupByYear(posts, yearOf)
    decreases |posts|
  {
    if posts == [] then []
    else
      var init := posts[..|posts| - 1];
      assert forall i :: 0 <= i < |init| ==> init[i] == posts[i];
      InsertYear(yearOf(posts[|posts| - 1]), Years(init, yearOf))
  }

  /** In a strictly descending list, the tail holds exactly the members
      below the head. */
  lemma TailBelowHead(ys: seq<int>)
    requires StrictlyDescending(ys) && ys != []
    ensures forall y :: y in ys[1..] <==> y in ys && y < ys[0]
  {
    forall y
      ensures y in ys[1..] ==> y in ys && y < ys[0]
      ensures y in ys && y < ys[0] ==> y in ys[1..]
    {
      if y in ys[1..] {
        var k :| 0 <= k < |ys[1..]| && ys[1..][k] == y;
        assert ys[k + 1] == y;
      }
      if y in ys && y < ys[0] {
        var m :| 0 <= m < |ys| && ys[m] == y;
        assert ys[1..][m - 1] == y;
      }
    }
  }

  /** A set of years has only one strictly descending listing, so `Years`
      is the order the page shows whatever way it was computed. */
  lemma {:induction false} DescendingListingUnique(a: seq<int>, b: seq<int>)
    requires StrictlyDescending(a) && StrictlyDescending(b)
    requires forall y :: y in a <==> y in b
    ensures a == b
    decreases |a|
  {
    assert a == [] <==> b == [] by {
      if a != [] {
        assert a[0] in a;
      }
      if b != [] {
        assert b[0] in b;
      }
    }
    if a != [] {
      DescendingHead(a, b);
      TailBelowHead(a);
      TailBelowHead(b);
      DescendingListingUnique(a[1..], b[1..]);
      assert a == [a[0]] + a[1..] && b == [b[0]] + b[1..];
    }
  }

  /** Two strictly descending listings of the same years start with the
      same, largest, year. */
  lemma DescendingHead(a: seq<int>, b: seq<int>)
    requires StrictlyDescending(a) && StrictlyDescending(b) && a != [] && b != []
    requires forall y :: y in a <==> y in b
    ensures a[0] == b[0]
  {
    assert a[0] in b && b[0] in a;
    var i :| 0 <= i < |b| && b[i] == a[0];
    var j :| 0 <= j < |a| && a[j] == b[0];
    assert b[0] >= b[i] && a[0] >= a[j];
  }

  /** Every post counted once across the groups the page lists. */
  lemma ListedGroupsCoverPosts<T>(posts: seq<T>, yearOf: T -> int)
    ensures SizeSum(posts, yearOf, Years(posts, yearOf)) == |posts|
  {
    var ys := Years(posts, yearOf);
    assert forall i :: 0 <= i < |posts| ==> yearOf(posts[i]) in GroupByYear(posts, yearOf);
    GroupSizesAddUp(posts, yearOf, ys);
  }
}
