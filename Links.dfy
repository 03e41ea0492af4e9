/**
 * The URL heuristics of the script: the imgur fix-up applied to each stored
 * URL (reddit_image_save.rb:55-61), the inverted `is_picture?` predicate
 * (65-70) and the extension taken from a URL before download (122).
 *
 * Ruby's `^` and `$` match at line boundaries; URLs are taken to contain no
 * newline, so here they mean the start and the end of the string.  The
 * `(?i)` flag is ASCII case folding.
 */
module Links {
  import opened Wrappers
  import opened Text

  const IMAGE_EXTENSIONS: seq<string> := ["bmp", "gif", "jpeg", "jpg", "png", "tiff"]

  /**
   * `u` ends in `.` followed by `ext` (ext compared case-insensitively), with
   * at least `before` characters in front of the dot.
   */
  predicate HasDotSuffix(u: string, ext: string, before: nat)
  {
    |u| >= before + 1 + |ext| && EndsWith(Lower(u), "." + ext)
  }

  /**
   * `/^.*\.(?i)((bmp)|(gif)|(jpeg)|(jpg)|(png)|(tiff))$/` for `before == 0`
   * (line 59) and the same with `.+` for `before == 1` (line 67).
   */
  predicate HasImageSuffix(u: string, before: nat)
  {
    HasDotSuffix(u, "bmp", before) || HasDotSuffix(u, "gif", before) ||
    HasDotSuffix(u, "jpeg", before) || HasDotSuffix(u, "jpg", before) ||
    HasDotSuffix(u, "png", before) || HasDotSuffix(u, "tiff", before)
  }

  // ---------------------------------------------------------------------
  // The imgur fix-up

  /** The characters of the two tokens `http://` and `www`. */
  predicate IsTokenChar(c: char)
  {
    c == 'h' || c == 't' || c == 'p' || c == ':' || c == '/' || c == 'w'
  }

  /** `((http:\/\/)|(www))+`: one or more of the two tokens back to back. */
  predicate IsTokenRun(s: string)
    decreases |s|
  {
    (StartsWith(s, "http://") && (|s| == 7 || IsTokenRun(s[7..]))) ||
    (StartsWith(s, "www") && (|s| == 3 || IsTokenRun(s[3..])))
  }

  /** `url =~ /^((http:\/\/)|(www))+imgur\.com.*$/` (line 55), case-sensitive. */
  predicate MatchesImgur(u: string)
  {
    exists k :: 0 < k <= |u| && IsTokenRun(u[..k]) && OccursAt(u, "imgur.com", k)
  }

  /** `url.insert(k, 'i.')`. */
  function Inserted(u: string, k: nat): string
    requires k <= |u|
  {
    u[..k] + "i." + u[k..]
  }

  /**
   * The body of the loop at lines 53-63 for one URL: when the pattern
   * matches, `i.` goes in front of the first case-insensitive `imgur.com`
   * (`url.index(/(?i)(imgur\.com).*$/)`), and `.jpg` is appended unless the
   * result already ends in an image extension.  Any other URL is unchanged.
   */
  function FixImgurUrl(u: string): string
  {
    if !MatchesImgur(u) then u
    else
      match IndexOf(Lower(u), "imgur.com", 0)
      // None does not happen: the match itself is an occurrence (ImgurIndex)
      case None => u
      case Some(k) =>
        var inserted := Inserted(u, k);
        if HasImageSuffix(inserted, 0) then inserted else inserted + ".jpg"
  }

  lemma {:induction false} TokenRunChars(s: string)
    ensures IsTokenRun(s) ==> forall i :: 0 <= i < |s| ==> IsTokenChar(s[i])
    decreases |s|
  {
    if StartsWith(s, "http://") && (|s| == 7 || IsTokenRun(s[7..])) {
      assert s[..7] == "http://";
      if |s| > 7 {
        TokenRunChars(s[7..]);
        assert forall i :: 7 <= i < |s| ==> s[i] == s[7..][i - 7];
      }
    } else if StartsWith(s, "www") && (|s| == 3 || IsTokenRun(s[3..])) {
      assert s[..3] == "www";
      if |s| > 3 {
        TokenRunChars(s[3..]);
        assert forall i :: 3 <= i < |s| ==> s[i] == s[3..][i - 3];
      }
    }
  }

  /**
   * When the pattern matches with `imgur.com` at `k`, the case-insensitive
   * search of line 56 finds that same position: the tokens in front of it
   * hold no `i` or `I`.
   */
  lemma ImgurIndex(u: string, k: nat)
    requires 0 < k <= |u| && IsTokenRun(u[..k]) && OccursAt(u, "imgur.com", k)
    ensures IndexOf(Lower(u), "imgur.com", 0) == Some(k)
  {
    TokenRunChars(u[..k]);
    var l := Lower(u);
    assert l[k..k + 9] == "imgur.com" by {
      LowerSlice(u, k, k + 9);
      LowerOfLowercase(u[k..k + 9]);
    }
    assert OccursAt(l, "imgur.com", k);
    forall j | 0 <= j < k ensures !OccursAt(l, "imgur.com", j) {
      assert u[..k][j] == u[j];
      assert l[j..j + 9][0] == l[j] != 'i';
    }
  }

  /** The suffix tests see only the last characters of a URL. */
  lemma DotSuffixOfCommonTail(x: string, y: string, tail: string, ext: string)
    requires EndsWith(x, tail) && EndsWith(y, tail) && |ext| + 1 <= |tail|
    ensures HasDotSuffix(x, ext, 0) <==> HasDotSuffix(y, ext, 0)
  {
    var n := |ext| + 1;
    assert x[|x| - n..] == tail[|tail| - n..] == y[|y| - n..] by {
      assert x[|x| - n..] == x[|x| - |tail|..][|tail| - n..];
      assert y[|y| - n..] == y[|y| - |tail|..][|tail| - n..];
    }
    LowerSlice(x, |x| - n, |x|);
    LowerSlice(y, |y| - n, |y|);
    assert x[|x| - n..|x|] == x[|x| - n..] && y[|y| - n..|y|] == y[|y| - n..];
  }

  lemma ImageSuffixOfCommonTail(x: string, y: string, tail: string)
    requires EndsWith(x, tail) && EndsWith(y, tail) && 5 <= |tail|
    ensures HasImageSuffix(x, 0) <==> HasImageSuffix(y, 0)
  {
    DotSuffixOfCommonTail(x, y, tail, "bmp");
    DotSuffixOfCommonTail(x, y, tail, "gif");
    DotSuffixOfCommonTail(x, y, tail, "jpeg");
    DotSuffixOfCommonTail(x, y, tail, "jpg");
    DotSuffixOfCommonTail(x, y, tail, "png");
    DotSuffixOfCommonTail(x, y, tail, "tiff");
  }

  lemma JpgAppended(v: string)
    requires v != []
    ensures HasImageSuffix(v + ".jpg", 1)
  {
    var r := v + ".jpg";
    LowerSlice(r, |r| - 4, |r|);
    assert r[|r| - 4..|r|] == ".jpg";
    LowerOfLowercase(".jpg");
    assert Lower(r)[|r| - 4..] == "." + "jpg";
    assert HasDotSuffix(r, "jpg", 1);
  }

  lemma LongImageSuffix(v: string)
    requires HasImageSuffix(v, 0) && |v| >= 6
    ensures HasImageSuffix(v, 1)
  {
  }

  /**
   * A matching URL gets `i.` inserted exactly at the `imgur.com` of the
   * match, and `.jpg` appended exactly when it had no image extension; the
   * result always ends in one, with text in front of the dot.
   */
  lemma FixImgurUrlRewrites(u: string, k: nat)
    requires 0 < k <= |u| && IsTokenRun(u[..k]) && OccursAt(u, "imgur.com", k)
    ensures StartsWith(FixImgurUrl(u), Inserted(u, k))
    ensures HasImageSuffix(u, 0) ==> FixImgurUrl(u) == Inserted(u, k)
    ensures !HasImageSuffix(u, 0) ==> FixImgurUrl(u) == Inserted(u, k) + ".jpg"
    ensures HasImageSuffix(FixImgurUrl(u), 1)
  {
    ImgurIndex(u, k);
    var v := Inserted(u, k);
    assert EndsWith(v, u[k..]) by { assert v[|v| - |u[k..]|..] == u[k..]; }
    assert EndsWith(u, u[k..]);
    ImageSuffixOfCommonTail(u, v, u[k..]);
    if HasImageSuffix(v, 0) {
      LongImageSuffix(v);
    } else {
      JpgAppended(v);
      assert (v + ".jpg")[..|v|] == v;
    }
  }

  /**
   * A string with only token characters before an `i.` at `k` does not
   * match line 55.
   */
  lemma IDotBlocksMatch(r: string, k: nat)
    requires k + 2 <= |r| && r[k] == 'i' && r[k + 1] == '.'
    requires forall j :: 0 <= j < k ==> IsTokenChar(r[j])
    ensures !MatchesImgur(r)
  {
    forall j | 0 <= j < k ensures !OccursAt(r, "imgur.com", j) {
      MismatchNotOccurs(r, "imgur.com", j, 0);
    }
    MismatchNotOccurs(r, "imgur.com", k, 1);
    forall j | k < j <= |r| ensures !IsTokenRun(r[..j]) {
      TokenRunChars(r[..j]);
      assert r[..j][k] == r[k];
    }
  }

  /**
   * A rewritten URL no longer matches line 55: the `i.` now stands where the
   * pattern needs `imgur.com`, and an `i` is not a token character.
   */
  lemma FixedUrlDoesNotMatch(u: string)
    requires MatchesImgur(u)
    ensures !MatchesImgur(FixImgurUrl(u))
  {
    var k :| 0 < k <= |u| && IsTokenRun(u[..k]) && OccursAt(u, "imgur.com", k);
    FixImgurUrlRewrites(u, k);
    InsertedBlocksMatch(u, k, FixImgurUrl(u));
  }

  /** A string that starts with `Inserted(u, k)`, where tokens fill `u[..k]`, does not match line 55. */
  lemma InsertedBlocksMatch(u: string, k: nat, r: string)
    requires 0 < k <= |u| && IsTokenRun(u[..k]) && StartsWith(r, Inserted(u, k))
    ensures !MatchesImgur(r)
  {
    TokenRunChars(u[..k]);
    var v := Inserted(u, k);
    assert r[..|v|] == v;
    assert r[k] == v[k] == 'i' && r[k + 1] == v[k + 1] == '.';
    forall j | 0 <= j < k ensures IsTokenChar(r[j]) {
      assert r[j] == v[j] == u[..k][j];
    }
    IDotBlocksMatch(r, k);
  }

  /** Running the fix-up twice changes nothing the first run did not. */
  lemma FixImgurUrlIdempotent(u: string)
    ensures FixImgurUrl(FixImgurUrl(u)) == FixImgurUrl(u)
  {
    if MatchesImgur(u) {
      FixedUrlDoesNotMatch(u);
    }
  }

  /** A URL changes exactly when it matches line 55. */
  lemma FixImgurUrlChanges(u: string)
    ensures FixImgurUrl(u) != u <==> MatchesImgur(u)
  {
    if MatchesImgur(u) {
      var k :| 0 < k <= |u| && IsTokenRun(u[..k]) && OccursAt(u, "imgur.com", k);
      FixImgurUrlRewrites(u, k);
    }
  }

  /** The image extensions are three or four letters after a dot. */
  lemma NoDotNoImageSuffix(u: string)
    requires |u| >= 5 && u[|u| - 4] != '.' && u[|u| - 5] != '.'
    ensures !HasImageSuffix(u, 0)
  {
    assert Lower(u)[|u| - 4] != '.' && Lower(u)[|u| - 5] != '.';
  }

  /** The bare imgur page link of the scenario is turned into a direct JPEG link. */
  lemma FixImgurUrlExample(u: string)
    requires u == "http://imgur.com/abc123"
    ensures FixImgurUrl(u) == "http://i.imgur.com/abc123.jpg"
  {
    assert u[..7] == "http://" && IsTokenRun(u[..7]);
    assert u[7..16] == "imgur.com";
    assert u[|u| - 4] == 'c' && u[|u| - 5] == 'b';
    NoDotNoImageSuffix(u);
    FixImgurUrlRewrites(u, 7);
    ExampleInserted(u);
  }

  lemma ExampleInserted(u: string)
    requires u == "http://imgur.com/abc123"
    ensures Inserted(u, 7) + ".jpg" == "http://i.imgur.com/abc123.jpg"
  {
  }

  lemma WwwDotPrefixNotTokens()
    ensures !IsTokenRun("http://www.")
  {
    var s := "http://www.";
    assert !IsTokenRun(".");
    assert !StartsWith("www.", "http://");
    assert "www."[3..] == "." && "www."[..3] == "www";
    assert !IsTokenRun("www.");
    assert s[..7] == "http://" && s[7..] == "www.";
    assert s[..3][0] == 'h';
  }

  lemma WwwDotIndex(u: string)
    requires u == "http://www.imgur.com/abc"
    ensures IndexOf(Lower(u), "imgur.com", 0) == Some(11)
  {
    WwwDotLowercase(u);
    assert u[11..20] == "imgur.com";
    assert OccursAt(u, "imgur.com", 11);
    assert IsTokenRun(u[..10]) by {
      assert u[..10] == "http://www" && u[..10][7..] == "www";
    }
    TokenRunChars(u[..10]);
    assert u[10] == '.';
    forall j | 0 <= j < 11 ensures !OccursAt(u, "imgur.com", j) {
      if j < 10 { assert u[j] == u[..10][j]; }
      MismatchNotOccurs(u, "imgur.com", j, 0);
    }
  }

  lemma WwwDotLowercase(u: string)
    requires u == "http://www.imgur.com/abc"
    ensures Lower(u) == u
  {
    LowerOfLowercase(u);
  }

  /**
   * The `www` token must be followed directly by `imgur.com`, so the common
   * `www.imgur.com` form is not rewritten.
   */
  lemma WwwDotImgurUntouched(u: string)
    requires u == "http://www.imgur.com/abc"
    ensures FixImgurUrl(u) == u
  {
    WwwDotIndex(u);
    WwwDotPrefixNotTokens();
    assert u[..11] == "http://www.";
    forall k | 0 < k <= |u| && OccursAt(u, "imgur.com", k) ensures !IsTokenRun(u[..k]) {
      if IsTokenRun(u[..k]) { ImgurIndex(u, k); }
    }
  }

  // ---------------------------------------------------------------------
  // The picture filter

  /**
   * The URLs the script downloads: an image extension with at least one
   * character before its dot, and no `.php` (case-insensitive) anywhere
   * after the first character.
   */
  predicate IsDirectImage(u: string)
  {
    HasImageSuffix(u, 1) && !MentionsPhp(u)
  }

  /** `/^.+\.(?i)(php)/` (line 68): `.php`, any case, after the first character. */
  predicate MentionsPhp(u: string)
  {
    exists j :: 1 <= j < |u| && OccursAt(Lower(u), ".php", j)
  }

  /**
   * `is_picture?(file)` (lines 65-70).  Despite its name it answers true
   * for the URLs that `reject!` DISCARDS.
   */
  function IsPicture(file: string): (discard: bool)
    ensures discard <==> !IsDirectImage(file)
  {
    var valid := true;
    var valid := if HasImageSuffix(file, 1) then false else valid;
    var valid := if IndexOf(Lower(file), ".php", 1).Some? then true else valid;
    valid
  }

  /** A rewritten imgur URL is kept unless it mentions `.php`. */
  lemma FixedUrlKept(u: string)
    requires MatchesImgur(u)
    ensures !IsPicture(FixImgurUrl(u)) <==> !MentionsPhp(FixImgurUrl(u))
  {
    var k :| 0 < k <= |u| && IsTokenRun(u[..k]) && OccursAt(u, "imgur.com", k);
    FixImgurUrlRewrites(u, k);
  }

  // ---------------------------------------------------------------------
  // The extension

  /** The index of the last `.` in `s`. */
  function LastDot(s: string): (r: Option<nat>)
    ensures r.Some? ==> r.value < |s| && s[r.value] == '.' && '.' !in s[r.value + 1..]
    ensures r.None? ==> '.' !in s
  {
    if s == [] then None
    else if s[|s| - 1] == '.' then Some(|s| - 1)
    else
      var r := LastDot(s[..|s| - 1]);
      assert s == s[..|s| - 1] + [s[|s| - 1]];
      r
  }

  /**
   * `url.match(/\.([^\.]+)$/).to_a.last` (line 122): the nonempty text after
   * the last dot, or `None` (Ruby's `nil`) when the URL has no dot or ends
   * in one.
   */
  function Extension(url: string): (ext: Option<string>)
    ensures ext.Some? <==> '.' in url && url[|url| - 1] != '.'
    ensures ext.Some? ==> ext.value != [] && '.' !in ext.value && EndsWith(url, "." + ext.value)
  {
    match LastDot(url)
    case None => None
    case Some(d) =>
      if d + 1 == |url| then None
      else
        assert url[|url| - 1] == url[d + 1..][|url| - d - 2];
        assert url[|url| - |url[d + 1..]| - 1..] == "." + url[d + 1..];
        Some(url[d + 1..])
  }

  /** A dot with no dot after it is the last dot. */
  lemma {:induction false} LastDotAt(s: string, n: nat)
    requires n < |s| && s[n] == '.' && '.' !in s[n + 1..]
    ensures LastDot(s) == Some(n)
    decreases |s|
  {
    if n < |s| - 1 {
      assert s[|s| - 1] == s[n + 1..][|s| - n - 2];
      var p := s[..|s| - 1];
      assert p[n + 1..] == s[n + 1..|s| - 1];
      assert '.' !in p[n + 1..];
      LastDotAt(p, n);
    }
  }

  lemma ExtensionOfDotSuffix(u: string, e: string)
    requires e != [] && '.' !in e && HasDotSuffix(u, e, 0)
    ensures Extension(u) == Some(u[|u| - |e|..])
    ensures Lower(u[|u| - |e|..]) == e
  {
    var n := |u| - |e| - 1;
    var t := u[n..];
    LowerSlice(u, n, |u|);
    assert u[n..|u|] == t;
    assert Lower(t) == "." + e;
    assert ToLower(t[0]) == Lower(t)[0] == '.';
    assert u[n] == t[0] == '.';
    forall i | 0 <= i < |e| ensures t[1..][i] != '.' {
      assert Lower(t)[i + 1] == e[i];
      assert e[i] in e;
    }
    assert u[n + 1..] == t[1..];
    LastDotAt(u, n);
    LowerSlice(t, 1, |t|);
    assert t[1..|t|] == t[1..];
  }

  /**
   * Every URL the filter keeps has an extension, and lower-cased it is one
   * of the six image extensions.
   */
  lemma DirectImageExtension(u: string)
    requires IsDirectImage(u)
    ensures Extension(u).Some?
    ensures Lower(Extension(u).value) in IMAGE_EXTENSIONS
  {
    if HasDotSuffix(u, "bmp", 1) { ExtensionOfDotSuffix(u, "bmp"); }
    else if HasDotSuffix(u, "gif", 1) { ExtensionOfDotSuffix(u, "gif"); }
    else if HasDotSuffix(u, "jpeg", 1) { ExtensionOfDotSuffix(u, "jpeg"); }
    else if HasDotSuffix(u, "jpg", 1) { ExtensionOfDotSuffix(u, "jpg"); }
    else if HasDotSuffix(u, "png", 1) { ExtensionOfDotSuffix(u, "png"); }
    else { ExtensionOfDotSuffix(u, "tiff"); }
  }

}
