/**
 * The title-to-URL table of the script (reddit_image_save.rb:46-75).  Ruby's
 * Hash remembers the order in which keys were first inserted, and assigning
 * to an existing key keeps its place; `UrlTable` holds that order next to
 * the key/value map.  Its assignment `Put` and its two in-place loops are
 * methods of the class, and the loop that fills the table is `BuildTable`;
 * each is proved against a function on the table's value.
 */
module Feed {
  import opened Links

  /** One post of the parsed feed: `link['data']['title']` and `link['data']['url']`. */
  datatype Entry = Entry(title: string, url: string)

  /** The value of a table: its keys in insertion order and its contents. */
  datatype Table = Table(order: seq<string>, urls: map<string, string>)

  predicate Distinct(s: seq<string>)
  {
    forall i, j :: 0 <= i < j < |s| ==> s[i] != s[j]
  }

  /** The order lists every key exactly once. */
  predicate WellFormed(tb: Table)
  {
    Distinct(tb.order) && (forall t :: t in tb.order ==> t in tb.urls) && (forall t :: t in tb.urls ==> t in tb.order)
  }

  /** `urls[title] = url` (line 49). */
  function Store(tb: Table, title: string, url: string): Table
  {
    Table(if title in tb.urls then tb.order else tb.order + [title], tb.urls[title := url])
  }

  /** The table after the loop of lines 48-50 over the posts `feed`. */
  function Build(feed: seq<Entry>): Table
  {
    if feed == [] then Table([], map[])
    else
      var last := feed[|feed| - 1];
      Store(Build(feed[..|feed| - 1]), last.title, last.url)
  }

  /** The table after the imgur loop of lines 53-63. */
  function FixAll(tb: Table): Table
  {
    Table(tb.order, map t | t in tb.urls :: FixImgurUrl(tb.urls[t]))
  }

  /** The keys of `order` whose URL `is_picture?` does not reject, in order. */
  function KeptTitles(order: seq<string>, urls: map<string, string>): seq<string>
  {
    if order == [] then []
    else
      var t := order[|order| - 1];
      KeptTitles(order[..|order| - 1], urls) + (if t in urls && !IsPicture(urls[t]) then [t] else [])
  }

  /** The table after `urls.reject! { |name, url| is_picture?(url) }` (lines 73-75). */
  function RejectPictures(tb: Table): Table
  {
    Table(KeptTitles(tb.order, tb.urls), map t | t in tb.urls && !IsPicture(tb.urls[t]) :: tb.urls[t])
  }

  /**
   * The pairs `each_pair` visits, in order: one per key, and each is a key
   * with its stored URL.
   */
  function Entries(tb: Table): (es: seq<Entry>)
    requires WellFormed(tb)
    ensures |es| == |tb.order|
    ensures forall e :: e in es <==> e.title in tb.urls && tb.urls[e.title] == e.url
  {
    var es := seq(|tb.order|, i requires 0 <= i < |tb.order| => Entry(tb.order[i], tb.urls[tb.order[i]]));
    assert forall e: Entry :: e.title in tb.urls && tb.urls[e.title] == e.url ==> e in es by {
      forall e: Entry | e.title in tb.urls && tb.urls[e.title] == e.url ensures e in es {
        var k :| 0 <= k < |tb.order| && tb.order[k] == e.title;
        assert es[k] == e;
      }
    }
    es
  }

  // ---------------------------------------------------------------------
  // Properties of the table functions

  lemma StoreWellFormed(tb: Table, title: string, url: string)
    requires WellFormed(tb)
    ensures WellFormed(Store(tb, title, url))
  {
  }

  lemma {:induction false} BuildWellFormed(feed: seq<Entry>)
    ensures WellFormed(Build(feed))
  {
    if feed != [] {
      BuildWellFormed(feed[..|feed| - 1]);
    }
  }

  /** The table's keys are exactly the titles of the feed. */
  lemma {:induction false} BuildKeys(feed: seq<Entry>, t: string)
    ensures t in Build(feed).urls <==> exists i :: 0 <= i < |feed| && feed[i].title == t
  {
    if feed != [] {
      var p := feed[..|feed| - 1];
      BuildKeys(p, t);
      assert forall k :: 0 <= k < |p| ==> p[k] == feed[k];
    }
  }

  /** A title maps to the URL of its last post: a later post overwrites an earlier one. */
  lemma {:induction false} BuildLastWins(feed: seq<Entry>, i: nat)
    requires i < |feed|
    requires forall j :: i < j < |feed| ==> feed[j].title != feed[i].title
    ensures feed[i].title in Build(feed).urls
    ensures Build(feed).urls[feed[i].title] == feed[i].url
  {
    if i < |feed| - 1 {
      var p := feed[..|feed| - 1];
      assert p[i] == feed[i];
      BuildLastWins(p, i);
    }
  }

  /**
   * The keys keep the order of the titles' first appearances: before any
   * post carrying a later key there is a post carrying the earlier key.
   */
  lemma {:induction false} BuildOrder(feed: seq<Entry>, a: nat, b: nat, j: nat)
    requires a < b < |Build(feed).order|
    requires j < |feed| && feed[j].title == Build(feed).order[b]
    ensures exists i :: 0 <= i < j && feed[i].title == Build(feed).order[a]
  {
    var n := |feed|;
    var p := feed[..n - 1];
    var last := feed[n - 1];
    var before := Build(p);
    var order := Build(feed).order;
    BuildWellFormed(p);
    BuildKeys(p, last.title);
    assert forall k :: 0 <= k < |p| ==> p[k] == feed[k];
    if last.title in before.urls {
      var j' := j;
      if j == n - 1 {
        j' :| 0 <= j' < |p| && p[j'].title == last.title;
      }
      BuildOrder(p, a, b, j');
    } else if b < |before.order| {
      assert order[b] in before.urls;
      BuildOrder(p, a, b, j);
    } else {
      assert order[a] in before.urls;
      BuildKeys(p, order[a]);
      var i :| 0 <= i < |p| && p[i].title == order[a];
      assert feed[i].title == order[a];
    }
  }

  /** The imgur loop changes exactly the URLs that match line 55. */
  lemma FixAllChanges(tb: Table, t: string)
    requires t in tb.urls
    ensures t in FixAll(tb).urls
    ensures FixAll(tb).urls[t] != tb.urls[t] <==> MatchesImgur(tb.urls[t])
  {
    FixImgurUrlChanges(tb.urls[t]);
  }

  /** Running the imgur loop a second time is a no-op. */
  lemma FixAllIdempotent(tb: Table)
    ensures FixAll(FixAll(tb)) == FixAll(tb)
  {
    forall t | t in tb.urls ensures FixImgurUrl(FixImgurUrl(tb.urls[t])) == FixImgurUrl(tb.urls[t]) {
      FixImgurUrlIdempotent(tb.urls[t]);
    }
  }

  lemma {:induction false} KeptTitlesMembers(order: seq<string>, urls: map<string, string>, t: string)
    ensures t in KeptTitles(order, urls) <==> t in order && t in urls && !IsPicture(urls[t])
  {
    if order != [] {
      var p := order[..|order| - 1];
      KeptTitlesMembers(p, urls, t);
      assert order == p + [order[|order| - 1]];
    }
  }

  lemma {:induction false} KeptTitlesDistinct(order: seq<string>, urls: map<string, string>)
    requires Distinct(order)
    ensures Distinct(KeptTitles(order, urls))
  {
    if order != [] {
      var p := order[..|order| - 1];
      var x := order[|order| - 1];
      KeptTitlesDistinct(p, urls);
      KeptTitlesMembers(p, urls, x);
      assert x !in p;
    }
  }

  /** The kept titles keep their relative order: a title before another in the result was before it in `order`. */
  lemma {:induction false} KeptTitlesOrder(order: seq<string>, urls: map<string, string>, a: nat, b: nat)
    requires a < b < |KeptTitles(order, urls)|
    ensures exists i, j :: 0 <= i < j < |order| && order[i] == KeptTitles(order, urls)[a] && order[j] == KeptTitles(order, urls)[b]
  {
    var n := |order|;
    var p := order[..n - 1];
    var kp := KeptTitles(p, urls);
    var k := KeptTitles(order, urls);
    assert k[..|kp|] == kp;
    if b < |kp| {
      KeptTitlesOrder(p, urls, a, b);
      var i, j :| 0 <= i < j < |p| && p[i] == kp[a] && p[j] == kp[b];
      assert order[i] == k[a] && order[j] == k[b];
    } else {
      assert k[b] == order[n - 1];
      KeptTitlesMembers(p, urls, kp[a]);
      var i :| 0 <= i < |p| && p[i] == kp[a];
      assert order[i] == k[a];
    }
  }

  /**
   * `reject!` removes exactly the entries `is_picture?` flags, keeps the
   * others with their titles and URLs; `RejectPicturesOrder` adds that it
   * keeps their order.
   */
  lemma RejectPicturesKeeps(tb: Table)
    requires WellFormed(tb)
    ensures WellFormed(RejectPictures(tb))
    ensures forall e :: e in Entries(RejectPictures(tb)) <==> e in Entries(tb) && !IsPicture(e.url)
  {
    var r := RejectPictures(tb);
    KeptTitlesDistinct(tb.order, tb.urls);
    forall t ensures t in r.order <==> t in r.urls {
      KeptTitlesMembers(tb.order, tb.urls, t);
    }
    forall e ensures e in Entries(r) <==> e in Entries(tb) && !IsPicture(e.url) {
      KeptTitlesMembers(tb.order, tb.urls, e.title);
      if e in Entries(r) {
        var i :| 0 <= i < |r.order| && Entries(r)[i] == e;
        assert e.title in r.order;
        var k :| 0 <= k < |tb.order| && tb.order[k] == e.title;
        assert Entries(tb)[k] == e;
      }
      if e in Entries(tb) && !IsPicture(e.url) {
        var k :| 0 <= k < |tb.order| && Entries(tb)[k] == e;
        assert e.title in r.order;
        var i :| 0 <= i < |r.order| && r.order[i] == e.title;
        assert Entries(r)[i] == e;
      }
    }
  }

  /** A title `reject!` keeps before another was before it in the table too. */
  lemma RejectPicturesOrder(tb: Table, a: nat, b: nat)
    requires a < b < |RejectPictures(tb).order|
    ensures exists i, j ::
              0 <= i < j < |tb.order| &&
              tb.order[i] == RejectPictures(tb).order[a] && tb.order[j] == RejectPictures(tb).order[b]
  {
    KeptTitlesOrder(tb.order, tb.urls, a, b);
  }

  // ---------------------------------------------------------------------
  // The tables the two in-place loops pass through

  /** The URLs once the imgur loop has visited the keys in `done`. */
  ghost function FixedUpTo(m: map<string, string>, done: seq<string>): map<string, string>
  {
    map t | t in m :: if t in done then FixImgurUrl(m[t]) else m[t]
  }

  /** The URLs once `reject!` has visited the keys in `done`. */
  ghost function PrunedUpTo(m: map<string, string>, done: seq<string>): map<string, string>
  {
    map t | t in m && (t in done ==> !IsPicture(m[t])) :: m[t]
  }

  lemma DistinctNotInPrefix(s: seq<string>, i: nat)
    requires Distinct(s) && i < |s|
    ensures s[i] !in s[..i]
    ensures s[..i + 1] == s[..i] + [s[i]]
  {
  }

  lemma FixedStep(m: map<string, string>, done: seq<string>, t: string)
    requires t in m && t !in done
    ensures t in FixedUpTo(m, done) && FixedUpTo(m, done)[t] == m[t]
    ensures FixedUpTo(m, done)[t := FixImgurUrl(m[t])] == FixedUpTo(m, done + [t])
  {
  }

  lemma PrunedStep(m: map<string, string>, done: seq<string>, t: string)
    requires t in m && t !in done
    ensures t in PrunedUpTo(m, done) && PrunedUpTo(m, done)[t] == m[t]
    ensures IsPicture(m[t]) ==> PrunedUpTo(m, done) - {t} == PrunedUpTo(m, done + [t])
    ensures !IsPicture(m[t]) ==> PrunedUpTo(m, done) == PrunedUpTo(m, done + [t])
    ensures KeptTitles(done + [t], m) == KeptTitles(done, m) + (if IsPicture(m[t]) then [] else [t])
  {
    assert (done + [t])[..|done|] == done;
  }

  lemma FixedAll(tb: Table)
    requires WellFormed(tb)
    ensures FixedUpTo(tb.urls, tb.order) == FixAll(tb).urls
    ensures WellFormed(FixAll(tb))
  {
  }

  lemma PrunedAll(tb: Table)
    requires WellFormed(tb)
    ensures PrunedUpTo(tb.urls, tb.order) == RejectPictures(tb).urls
  {
  }

  // ---------------------------------------------------------------------
  // The mutable table

  class UrlTable {
    var order: seq<string>
    var urls: map<string, string>

    function View(): Table
      reads this
    {
      Table(order, urls)
    }

    ghost predicate Valid()
      reads this
    {
      WellFormed(View())
    }

    /** `urls = {}` (line 46). */
    constructor ()
      ensures Valid() && View() == Table([], map[])
    {
      order := [];
      urls := map[];
    }

    /** `urls[title] = url`. */
    method Put(title: string, url: string)
      requires Valid()
      modifies this
      ensures Valid() && View() == Store(old(View()), title, url)
    {
      if title !in urls {
        order := order + [title];
      }
      urls := urls[title := url];
    }

    /** The `each_pair` loop of lines 53-63, rewriting each stored URL in place. */
    method FixImgurLinks()
      requires Valid()
      modifies this
      ensures Valid() && View() == FixAll(old(View()))
    {
      ghost var before := View();
      var i := 0;
      while i < |order|
        invariant 0 <= i <= |order| && order == before.order
        invariant urls == FixedUpTo(before.urls, order[..i])
      {
        var t := order[i];
        DistinctNotInPrefix(order, i);
        FixedStep(before.urls, order[..i], t);
        urls := urls[t := FixImgurUrl(urls[t])];
        i := i + 1;
      }
      assert order[..i] == order;
      FixedAll(before);
    }

    /** `urls.reject! { |name, url| is_picture?(url) }` (lines 73-75). */
    method RejectNonPictures()
      requires Valid()
      modifies this
      ensures Valid() && View() == RejectPictures(old(View()))
    {
      ghost var before := View();
      var kept: seq<string> := [];
      var i := 0;
      while i < |order|
        invariant 0 <= i <= |order| && order == before.order
        invariant kept == KeptTitles(order[..i], before.urls)
        invariant urls == PrunedUpTo(before.urls, order[..i])
      {
        var t := order[i];
        DistinctNotInPrefix(order, i);
        PrunedStep(before.urls, order[..i], t);
        if IsPicture(urls[t]) {
          urls := urls - {t};
        } else {
          kept := kept + [t];
        }
        i := i + 1;
      }
      assert order[..i] == order;
      PrunedAll(before);
      RejectPicturesKeeps(before);
      order := kept;
    }
  }

  /** The loop of lines 48-50 over the parsed posts. */
  method BuildTable(feed: seq<Entry>) returns (table: UrlTable)
    ensures fresh(table) && table.Valid() && table.View() == Build(feed)
  {
    table := new UrlTable();
    for i := 0 to |feed|
      invariant table.Valid() && table.View() == Build(feed[..i])
    {
      assert feed[..i + 1][..i] == feed[..i];
      table.Put(feed[i].title, feed[i].url);
    }
    assert feed[..|feed|] == feed;
  }

}
