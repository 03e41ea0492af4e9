/**
 * The download loop (reddit_image_save.rb:120-126) and the script as a
 * whole.  Every kept post is saved as `dir/sanitize(title).ext`, where `ext`
 * is the URL's text after its last `.`, lower-cased.  A file that already
 * exists is not fetched again; a URL without an extension makes
 * `ext.downcase` raise, which ends the script.
 *
 * The network transfer itself is not modelled: a "download" is the pair of
 * URL and path the script hands to `download_file`, which creates the file.
 * `File.exist?` is a set of paths, given at the start and growing with each
 * download.
 */
module Download {
  import opened Wrappers
  import opened Text
  import opened Links
  import opened Feed
  import opened Sanitize

  /** `"#{dir}/#{sanitize(name)}.#{ext.downcase}"` (line 123); `None` where `ext` is nil. */
  function DestinationPath(dir: string, title: string, url: string): (p: Option<string>)
    ensures p.Some? <==> '.' in url && url[|url| - 1] != '.'
  {
    match Extension(url)
    case None => None
    case Some(ext) => Some(dir + "/" + SanitizedName(Utf8Encode(title)) + "." + Lower(ext))
  }

  /** A call `download_file(url, path)`. */
  datatype Download = Download(url: string, path: string)

  /** The downloads made, in order, and whether the script stopped on an error. */
  datatype Outcome = Outcome(downloads: seq<Download>, aborted: bool)

  function Then(done: seq<Download>, rest: Outcome): Outcome
  {
    Outcome(done + rest.downloads, rest.aborted)
  }

  /** What the loop of lines 120-126 does for the pairs `es` when the files `files` exist. */
  function Plan(es: seq<Entry>, dir: string, files: set<string>): Outcome
  {
    if es == [] then Outcome([], false)
    else
      match DestinationPath(dir, es[0].title, es[0].url)
      case None => Outcome([], true)
      case Some(path) =>
        if path in files then Plan(es[1..], dir, files)
        else Then([Download(es[0].url, path)], Plan(es[1..], dir, files + {path}))
  }

  /** The table the download loop walks: lines 46-75 applied to the parsed posts. */
  function Pipeline(feed: seq<Entry>): (tb: Table)
    ensures WellFormed(tb)
  {
    BuildWellFormed(feed);
    FixedAll(Build(feed));
    RejectPicturesKeeps(FixAll(Build(feed)));
    RejectPictures(FixAll(Build(feed)))
  }

  // ---------------------------------------------------------------------
  // Properties of the plan

  /** The script stops exactly when some visited URL has no extension. */
  lemma {:induction false} PlanAborts(es: seq<Entry>, dir: string, files: set<string>)
    ensures Plan(es, dir, files).aborted <==> exists k :: 0 <= k < |es| && Extension(es[k].url).None?
  {
    if es != [] {
      assert forall k :: 0 <= k < |es| - 1 ==> es[1..][k] == es[k + 1];
      match DestinationPath(dir, es[0].title, es[0].url)
      case None =>
      case Some(path) =>
        if path in files {
          PlanAborts(es[1..], dir, files);
        } else {
          PlanAborts(es[1..], dir, files + {path});
        }
    }
  }

  /**
   * No download overwrites a file that already existed, and no two downloads
   * share a path: of several posts whose names collide, only the first is
   * fetched.
   */
  lemma {:induction false} PlanPathsFresh(es: seq<Entry>, dir: string, files: set<string>)
    ensures forall k :: 0 <= k < |Plan(es, dir, files).downloads| ==> Plan(es, dir, files).downloads[k].path !in files
    ensures forall a, b :: 0 <= a < b < |Plan(es, dir, files).downloads| ==>
      Plan(es, dir, files).downloads[a].path != Plan(es, dir, files).downloads[b].path
  {
    if es != [] {
      match DestinationPath(dir, es[0].title, es[0].url)
      case None =>
      case Some(path) =>
        if path in files {
          PlanPathsFresh(es[1..], dir, files);
        } else {
          PlanPathsFresh(es[1..], dir, files + {path});
        }
    }
  }

  /** Every download is a visited post's URL saved under that post's path. */
  lemma {:induction false} PlanDownloadsFromEntries(es: seq<Entry>, dir: string, files: set<string>)
    ensures forall d :: d in Plan(es, dir, files).downloads ==>
      exists e :: e in es && e.url == d.url && DestinationPath(dir, e.title, e.url) == Some(d.path)
  {
    if es != [] {
      match DestinationPath(dir, es[0].title, es[0].url)
      case None =>
      case Some(path) =>
        var files' := if path in files then files else files + {path};
        PlanDownloadsFromEntries(es[1..], dir, files');
        forall d | d in Plan(es, dir, files).downloads
          ensures exists e :: e in es && e.url == d.url && DestinationPath(dir, e.title, e.url) == Some(d.path)
        {
          if d in Plan(es[1..], dir, files').downloads {
            var e :| e in es[1..] && e.url == d.url && DestinationPath(dir, e.title, e.url) == Some(d.path);
            assert e in es;
          } else {
            assert es[0] in es;
          }
        }
    }
  }

  /**
   * Unless the script stops, every visited post ends up with a file: either
   * it existed or it is downloaded.
   */
  lemma {:induction false} PlanCoversEntries(es: seq<Entry>, dir: string, files: set<string>)
    ensures !Plan(es, dir, files).aborted ==> forall k :: 0 <= k < |es| ==> Covered(es[k], dir, files, Plan(es, dir, files))
  {
    if es != [] {
      match DestinationPath(dir, es[0].title, es[0].url)
      case None =>
      case Some(path) =>
        var out := Plan(es, dir, files);
        if path in files {
          PlanCoversEntries(es[1..], dir, files);
          forall k | 1 <= k < |es| && !out.aborted ensures Covered(es[k], dir, files, out) {
            assert es[k] == es[1..][k - 1];
          }
        } else {
          var rest := Plan(es[1..], dir, files + {path});
          PlanCoversEntries(es[1..], dir, files + {path});
          var d0 := Download(es[0].url, path);
          assert out.downloads == [d0] + rest.downloads;
          forall k | 1 <= k < |es| && !out.aborted ensures Covered(es[k], dir, files, out) {
            assert es[k] == es[1..][k - 1];
            CoveredAfterDownload(es[k], dir, files, d0, rest);
          }
        }
    }
  }

  /**
   * Of several posts whose names collide at a new path `p`, the first one is
   * fetched there: the later ones find the file existing, so every download
   * to `p` is the first post's URL.
   */
  lemma {:induction false} PlanFirstWins(es: seq<Entry>, dir: string, files: set<string>, i: nat, p: string)
    requires i < |es| && p !in files
    requires DestinationPath(dir, es[i].title, es[i].url) == Some(p)
    requires forall k :: 0 <= k < i ==>
               DestinationPath(dir, es[k].title, es[k].url).Some? && DestinationPath(dir, es[k].title, es[k].url) != Some(p)
    ensures Download(es[i].url, p) in Plan(es, dir, files).downloads
    ensures forall d :: d in Plan(es, dir, files).downloads && d.path == p ==> d.url == es[i].url
  {
    var out := Plan(es, dir, files);
    if i == 0 {
      var rest := Plan(es[1..], dir, files + {p});
      assert out.downloads == [Download(es[0].url, p)] + rest.downloads;
      PlanPathsFresh(es[1..], dir, files + {p});
      forall d | d in rest.downloads ensures d.path != p {
        var k :| 0 <= k < |rest.downloads| && rest.downloads[k] == d;
      }
    } else {
      AvoidsShift(es, dir, i, p);
      var q := DestinationPath(dir, es[0].title, es[0].url).value;
      if q in files {
        PlanFirstWins(es[1..], dir, files, i - 1, p);
      } else {
        var rest := Plan(es[1..], dir, files + {q});
        assert out.downloads == [Download(es[0].url, q)] + rest.downloads;
        PlanFirstWins(es[1..], dir, files + {q}, i - 1, p);
      }
    }
  }

  /** The requirement of `PlanFirstWins` carries over from `es` at `i` to `es[1..]` at `i - 1`. */
  lemma AvoidsShift(es: seq<Entry>, dir: string, i: nat, p: string)
    requires 0 < i < |es|
    requires forall k :: 0 <= k < i ==>
               DestinationPath(dir, es[k].title, es[k].url).Some? && DestinationPath(dir, es[k].title, es[k].url) != Some(p)
    ensures es[1..][i - 1] == es[i]
    ensures forall k :: 0 <= k < i - 1 ==>
              DestinationPath(dir, es[1..][k].title, es[1..][k].url).Some? && DestinationPath(dir, es[1..][k].title, es[1..][k].url) != Some(p)
  {
    forall k | 0 <= k < i - 1
      ensures DestinationPath(dir, es[1..][k].title, es[1..][k].url).Some? && DestinationPath(dir, es[1..][k].title, es[1..][k].url) != Some(p)
    {
      assert es[1..][k] == es[k + 1];
    }
  }

  /** The post `e` has a path, and that file existed or is downloaded in `out`. */
  predicate Covered(e: Entry, dir: string, files: set<string>, out: Outcome)
  {
    match DestinationPath(dir, e.title, e.url)
    case None => false
    case Some(path) => path in files || exists d :: d in out.downloads && d.path == path
  }

  lemma CoveredAfterDownload(e: Entry, dir: string, files: set<string>, d0: Download, rest: Outcome)
    requires Covered(e, dir, files + {d0.path}, rest)
    ensures Covered(e, dir, files, Outcome([d0] + rest.downloads, rest.aborted))
  {
    var out := Outcome([d0] + rest.downloads, rest.aborted);
    assert d0 in out.downloads;
    assert forall d :: d in rest.downloads ==> d in out.downloads;
  }

  /**
   * A kept URL has a destination: `dir/`, the sanitised title, `.` and the
   * URL's own extension lower-cased, which is one of the image extensions.
   */
  lemma DirectImagePath(dir: string, title: string, url: string)
    requires IsDirectImage(url)
    ensures DestinationPath(dir, title, url).Some? && Extension(url).Some?
    ensures Lower(Extension(url).value) in IMAGE_EXTENSIONS
    ensures DestinationPath(dir, title, url).value ==
              dir + "/" + SanitizedName(Utf8Encode(title)) + "." + Lower(Extension(url).value)
    ensures exists ext :: ext in IMAGE_EXTENSIONS && DestinationPath(dir, title, url).value == dir + "/" + SanitizedName(Utf8Encode(title)) + "." + ext
  {
    DirectImageExtension(url);
  }

  /** Every pair left after the filter is a direct link to an image. */
  lemma PipelineDirectImages(feed: seq<Entry>)
    ensures forall e :: e in Entries(Pipeline(feed)) ==> IsDirectImage(e.url)
  {
    BuildWellFormed(feed);
    FixedAll(Build(feed));
    RejectPicturesKeeps(FixAll(Build(feed)));
  }

  /** After the filter the script never stops on a missing extension. */
  lemma PipelineNeverAborts(feed: seq<Entry>, dir: string, files: set<string>)
    ensures !Plan(Entries(Pipeline(feed)), dir, files).aborted
  {
    PipelineDirectImages(feed);
    var es := Entries(Pipeline(feed));
    forall k | 0 <= k < |es| ensures Extension(es[k].url).Some? {
      DirectImageExtension(es[k].url);
    }
    PlanAborts(es, dir, files);
  }

  /** The script's downloads are direct image links saved under fresh paths. */
  lemma PipelineDownloads(feed: seq<Entry>, dir: string, existing: set<string>)
    ensures !Plan(Entries(Pipeline(feed)), dir, existing).aborted
    ensures forall d :: d in Plan(Entries(Pipeline(feed)), dir, existing).downloads ==> IsDirectImage(d.url) && d.path !in existing
  {
    var es := Entries(Pipeline(feed));
    PipelineNeverAborts(feed, dir, existing);
    PipelineDirectImages(feed);
    PlanPathsFresh(es, dir, existing);
    PlanDownloadsFromEntries(es, dir, existing);
    var ds := Plan(es, dir, existing).downloads;
    forall d | d in ds ensures IsDirectImage(d.url) && d.path !in existing {
      var e :| e in es && e.url == d.url && DestinationPath(dir, e.title, e.url) == Some(d.path);
      var k :| 0 <= k < |ds| && ds[k] == d;
    }
  }

  // ---------------------------------------------------------------------
  // The loop and the script

  lemma PlanStep(es: seq<Entry>, i: nat, dir: string, files: set<string>)
    requires i < |es|
    ensures Plan(es[i..], dir, files) ==
      match DestinationPath(dir, es[i].title, es[i].url)
      case None => Outcome([], true)
      case Some(path) =>
        if path in files then Plan(es[i + 1..], dir, files)
        else Then([Download(es[i].url, path)], Plan(es[i + 1..], dir, files + {path}))
  {
    assert es[i..][0] == es[i] && es[i..][1..] == es[i + 1..];
  }

  /** The `each_pair` loop of lines 120-126 over a table. */
  method DownloadAll(table: UrlTable, dir: string, existing: set<string>) returns (out: Outcome)
    requires table.Valid()
    ensures out == Plan(Entries(table.View()), dir, existing)
  {
    ghost var es := Entries(table.View());
    var order, urls := table.order, table.urls;
    var files := existing;
    var downloads: seq<Download> := [];
    var i := 0;
    while i < |order|
      invariant 0 <= i <= |order| == |es|
      invariant Plan(es, dir, existing) == Then(downloads, Plan(es[i..], dir, files))
    {
      var name := order[i];
      var url := urls[name];
      PlanStep(es, i, dir, files);
      var ext := Extension(url);
      if ext.None? {
        return Outcome(downloads, true);
      }
      var sani := Sanitize.Sanitize(name);
      var path := dir + "/" + sani + "." + Lower(ext.value);
      if path !in files {
        downloads := downloads + [Download(url, path)];
        files := files + {path};
      }
      i := i + 1;
    }
    out := Outcome(downloads, false);
  }

  /**
   * Lines 46-126 on the parsed posts `feed`: build the table, fix imgur
   * links, drop non-images, download.
   */
  method SaveImages(feed: seq<Entry>, dir: string, existing: set<string>) returns (out: Outcome)
    ensures out == Plan(Entries(Pipeline(feed)), dir, existing)
    ensures !out.aborted
    ensures forall d :: d in out.downloads ==> IsDirectImage(d.url) && d.path !in existing
  {
    var table := BuildTable(feed);
    table.FixImgurLinks();
    table.RejectNonPictures();
    out := DownloadAll(table, dir, existing);
    PipelineDownloads(feed, dir, existing);
  }

  // ---------------------------------------------------------------------
  // Two posts, end to end

  /**
   * Posts `Cat!! #1` linking `http://imgur.com/abc123` and `Doc` linking
   * `http://example.com/file.php`, saved into `pics`: the first is fetched
   * from `http://i.imgur.com/abc123.jpg` into `pics/Cat_1.jpg` unless that
   * file already exists, and the second is dropped by the filter.
   */
  lemma ExampleSave(feed: seq<Entry>, dir: string)
    requires feed == [Entry("Cat!! #1", "http://imgur.com/abc123"), Entry("Doc", "http://example.com/file.php")]
    requires dir == "pics"
    ensures Plan(Entries(Pipeline(feed)), dir, {}) == Outcome([Download("http://i.imgur.com/abc123.jpg", "pics/Cat_1.jpg")], false)
    ensures Plan(Entries(Pipeline(feed)), dir, {"pics/Cat_1.jpg"}) == Outcome([], false)
  {
    var fixed := "http://i.imgur.com/abc123.jpg";
    var e := Entry("Cat!! #1", fixed);
    ExampleTable(feed);
    assert Entries(Pipeline(feed)) == [e];
    ExamplePath(fixed);
    PlanSingle(e, dir, {}, "pics/Cat_1.jpg");
    PlanSingle(e, dir, {"pics/Cat_1.jpg"}, "pics/Cat_1.jpg");
  }

  lemma PlanSingle(e: Entry, dir: string, files: set<string>, path: string)
    requires DestinationPath(dir, e.title, e.url) == Some(path)
    ensures Plan([e], dir, files) == if path in files then Outcome([], false) else Outcome([Download(e.url, path)], false)
  {
    assert [e][1..] == [];
  }

  lemma ExampleTable(feed: seq<Entry>)
    requires feed == [Entry("Cat!! #1", "http://imgur.com/abc123"), Entry("Doc", "http://example.com/file.php")]
    ensures Pipeline(feed) == Table(["Cat!! #1"], map["Cat!! #1" := "http://i.imgur.com/abc123.jpg"])
  {
    var t1, u1 := "Cat!! #1", "http://imgur.com/abc123";
    var t2, u2 := "Doc", "http://example.com/file.php";
    var fixed := "http://i.imgur.com/abc123.jpg";
    ExampleBuild(feed, t1, u1, t2, u2);
    FixImgurUrlExample(u1);
    ExamplePhpUntouched(u2);
    ExampleFixAll(Build(feed), t1, u1, fixed, t2, u2);
    ExampleKept(fixed);
    ExamplePhpDropped(u2);
    ExampleReject(FixAll(Build(feed)), t1, fixed, t2, u2);
  }

  lemma ExampleBuild(feed: seq<Entry>, t1: string, u1: string, t2: string, u2: string)
    requires feed == [Entry(t1, u1), Entry(t2, u2)] && t1 != t2
    ensures Build(feed) == Table([t1, t2], map[t1 := u1, t2 := u2])
  {
    assert feed[..1] == [Entry(t1, u1)] && feed[..1][..0] == [];
    assert Build(feed[..1]) == Table([t1], map[t1 := u1]);
  }

  lemma ExampleFixAll(tb: Table, t1: string, u1: string, f1: string, t2: string, u2: string)
    requires tb == Table([t1, t2], map[t1 := u1, t2 := u2]) && t1 != t2
    requires FixImgurUrl(u1) == f1 && FixImgurUrl(u2) == u2
    ensures FixAll(tb) == Table([t1, t2], map[t1 := f1, t2 := u2])
  {
    assert FixAll(tb).urls.Keys == {t1, t2};
  }

  lemma ExampleReject(tb: Table, t1: string, v1: string, t2: string, v2: string)
    requires tb == Table([t1, t2], map[t1 := v1, t2 := v2]) && t1 != t2
    requires !IsPicture(v1) && IsPicture(v2)
    ensures RejectPictures(tb) == Table([t1], map[t1 := v1])
  {
    ExampleKeptTitle(tb.urls, t1, t2);
    ExampleKeptUrl(tb.urls, t1, v1, t2, v2);
  }

  lemma ExampleKeptTitle(m: map<string, string>, t1: string, t2: string)
    requires t1 in m && t2 in m && !IsPicture(m[t1]) && IsPicture(m[t2])
    ensures KeptTitles([t1, t2], m) == [t1]
  {
    assert [t1, t2][..1] == [t1] && [t1][..0] == [];
    assert KeptTitles([t1], m) == [t1];
  }

  lemma ExampleKeptUrl(m: map<string, string>, t1: string, v1: string, t2: string, v2: string)
    requires m == map[t1 := v1, t2 := v2] && t1 != t2
    requires !IsPicture(v1) && IsPicture(v2)
    ensures (map t | t in m && !IsPicture(m[t]) :: m[t]) == map[t1 := v1]
  {
    var kept := map t | t in m && !IsPicture(m[t]) :: m[t];
    assert kept.Keys == {t1} && kept[t1] == v1;
  }

  /** The `.php` link does not match line 55 ... */
  lemma ExamplePhpNoMatch(u: string)
    requires u == "http://example.com/file.php"
    ensures !MatchesImgur(u)
  {
    forall k | 0 < k < |u| ensures !OccursAt(u, "imgur.com", k) {
      if u[k] != 'i' {
        MismatchNotOccurs(u, "imgur.com", k, 0);
      } else {
        MismatchNotOccurs(u, "imgur.com", k, 1);
      }
    }
  }

  /** ... so the fix-up leaves it as it is. */
  lemma ExamplePhpUntouched(u: string)
    requires u == "http://example.com/file.php"
    ensures FixImgurUrl(u) == u
  {
    ExamplePhpNoMatch(u);
    FixImgurUrlChanges(u);
  }

  /** `is_picture?` flags the `.php` link, so `reject!` drops it. */
  lemma ExamplePhpDropped(u: string)
    requires u == "http://example.com/file.php"
    ensures IsPicture(u)
  {
    LowerSlice(u, |u| - 4, |u|);
    assert u[|u| - 4..] == ".php";
    LowerOfLowercase(".php");
    assert OccursAt(Lower(u), ".php", |u| - 4);
  }

  /** The rewritten link passes `is_picture?`. */
  lemma ExampleKept(v: string)
    requires v == "http://i.imgur.com/abc123.jpg"
    ensures !IsPicture(v)
  {
    ExampleJpgSuffix(v);
    forall j | 1 <= j < |v| ensures !OccursAt(Lower(v), ".php", j) {
      if v[j] != '.' {
        MismatchNotOccurs(Lower(v), ".php", j, 0);
      } else {
        MismatchNotOccurs(Lower(v), ".php", j, 1);
      }
    }
  }

  lemma ExampleJpgSuffix(v: string)
    requires v == "http://i.imgur.com/abc123.jpg"
    ensures HasDotSuffix(v, "jpg", 1)
  {
    LowerSlice(v, |v| - 4, |v|);
    assert v[|v| - 4..] == ".jpg";
    LowerOfLowercase(".jpg");
  }

  lemma ExamplePath(v: string)
    requires v == "http://i.imgur.com/abc123.jpg"
    ensures DestinationPath("pics", "Cat!! #1", v) == Some("pics/Cat_1.jpg")
  {
    ExampleExtension(v);
    SanitizeExample("Cat!! #1");
    ExamplePathText("pics", "Cat_1", "jpg");
  }

  lemma ExampleExtension(v: string)
    requires v == "http://i.imgur.com/abc123.jpg"
    ensures Extension(v) == Some("jpg")
  {
    ExampleJpgSuffix(v);
    ExtensionOfDotSuffix(v, "jpg");
    assert v[|v| - 3..] == "jpg";
  }

  lemma ExamplePathText(dir: string, name: string, ext: string)
    requires dir == "pics" && name == "Cat_1" && ext == "jpg"
    ensures dir + "/" + name + "." + Lower(ext) == "pics/Cat_1.jpg"
  {
    LowerOfLowercase(ext);
  }

}
