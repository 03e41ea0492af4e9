/**
 * `generate_custom_url`: the combined feed URL for a list of subreddit names
 * and a sort mode.  Ruby's `Array#sort` orders strings with `String#<=>`,
 * which compares their bytes; for UTF-8 text that is the order of the code
 * points, which is what `Precedes` compares.
 */
module FeedUrl {

  const REDDIT_PREFIX := "http://www.reddit.com/r/"

  /** `a <= b` in `String#<=>` order: lexicographic, a proper prefix first. */
  predicate Precedes(a: string, b: string)
    decreases |a|
  {
    a == [] || (b != [] && (a[0] < b[0] || (a[0] == b[0] && Precedes(a[1..], b[1..]))))
  }

  lemma {:induction false} PrecedesTotal(a: string, b: string)
    ensures Precedes(a, b) || Precedes(b, a)
    decreases |a|
  {
    if a != [] && b != [] && a[0] == b[0] {
      PrecedesTotal(a[1..], b[1..]);
    }
  }

  lemma {:induction false} PrecedesReflexive(a: string)
    ensures Precedes(a, a)
    decreases |a|
  {
    if a != [] {
      PrecedesReflexive(a[1..]);
    }
  }

  lemma {:induction false} PrecedesAntisymmetric(a: string, b: string)
    requires Precedes(a, b) && Precedes(b, a)
    ensures a == b
    decreases |a|
  {
    if a != [] {
      PrecedesAntisymmetric(a[1..], b[1..]);
      assert a == [a[0]] + a[1..] && b == [b[0]] + b[1..];
    }
  }

  lemma {:induction false} PrecedesTransitive(a: string, b: string, c: string)
    requires Precedes(a, b) && Precedes(b, c)
    ensures Precedes(a, c)
    decreases |a|
  {
    if a != [] && a[0] == b[0] && b[0] == c[0] {
      PrecedesTransitive(a[1..], b[1..], c[1..]);
    }
  }

  predicate Sorted(s: seq<string>)
  {
    forall i, j :: 0 <= i < j < |s| ==> Precedes(s[i], s[j])
  }

  function InsertSorted(x: string, s: seq<string>): (r: seq<string>)
    requires Sorted(s)
    ensures Sorted(r)
    ensures multiset(r) == multiset(s) + multiset{x}
  {
    if s == [] then [x]
    else if Precedes(x, s[0]) then
      assert forall j :: 0 < j < |s| ==> Precedes(x, s[j]) by {
        forall j | 0 < j < |s| { PrecedesTransitive(x, s[0], s[j]); }
      }
      [x] + s
    else
      PrecedesTotal(x, s[0]);
      var t := InsertSorted(x, s[1..]);
      assert s == [s[0]] + s[1..];
      forall j | 0 <= j < |t| ensures Precedes(s[0], t[j]) {
        assert t[j] in multiset(s[1..]) + multiset{x} by { assert t[j] in multiset(t); }
        if t[j] != x {
          var i :| 0 <= i < |s[1..]| && s[1..][i] == t[j];
          assert s[1 + i] == t[j];
        }
      }
      [s[0]] + t
  }

  /** `Array#sort` on strings. */
  function SortNames(s: seq<string>): (r: seq<string>)
    ensures Sorted(r)
    ensures multiset(r) == multiset(s)
  {
    if s == [] then []
    else
      assert s == [s[0]] + s[1..];
      InsertSorted(s[0], SortNames(s[1..]))
  }

  /** The head of a sorted sequence precedes every element of it. */
  lemma SortedHeadLeast(a: seq<string>, x: string)
    requires Sorted(a) && x in multiset(a)
    ensures a != [] && Precedes(a[0], x)
  {
    var i :| 0 <= i < |a| && a[i] == x;
    if i == 0 { PrecedesReflexive(x); }
  }

  lemma TailMultiset(a: seq<string>)
    requires a != []
    ensures multiset(a[1..]) == multiset(a) - multiset{a[0]}
  {
    assert a == [a[0]] + a[1..];
  }

  /** Two sorted arrangements of the same names are the same sequence. */
  lemma {:induction false} SortedUnique(a: seq<string>, b: seq<string>)
    requires Sorted(a) && Sorted(b)
    requires multiset(a) == multiset(b)
    ensures a == b
    decreases |a|
  {
    if a == [] {
      assert |b| == |multiset(b)| == 0;
    } else {
      SortedHeadLeast(b, a[0]);
      SortedHeadLeast(a, b[0]);
      PrecedesAntisymmetric(a[0], b[0]);
      TailMultiset(a);
      TailMultiset(b);
      assert Sorted(a[1..]) && Sorted(b[1..]);
      SortedUnique(a[1..], b[1..]);
      assert a == [a[0]] + a[1..] && b == [b[0]] + b[1..];
    }
  }

  /** `Array#join(sep)`. */
  function Join(parts: seq<string>, sep: string): string
  {
    if parts == [] then ""
    else if |parts| == 1 then parts[0]
    else parts[0] + sep + Join(parts[1..], sep)
  }

  /** `generate_custom_url(reddit_list, sort)` (reddit_image_save.rb:26-28). */
  function CustomUrl(names: seq<string>, sort: string): string
  {
    REDDIT_PREFIX + Join(SortNames(names), "+") + "/" + sort + ".json"
  }

  /**
   * The URL is the fixed template around the `+`-join of the names in
   * sorted order, whichever sorted arrangement of them one writes down.
   */
  lemma CustomUrlShape(names: seq<string>, sort: string, sorted: seq<string>)
    requires Sorted(sorted) && multiset(sorted) == multiset(names)
    ensures CustomUrl(names, sort) == REDDIT_PREFIX + Join(sorted, "+") + "/" + sort + ".json"
  {
    SortedUnique(SortNames(names), sorted);
  }

  /** Reordering the subreddit list does not change the URL. */
  lemma CustomUrlOrderInvariant(a: seq<string>, b: seq<string>, sort: string)
    requires multiset(a) == multiset(b)
    ensures CustomUrl(a, sort) == CustomUrl(b, sort)
  {
    SortedUnique(SortNames(a), SortNames(b));
  }

}
