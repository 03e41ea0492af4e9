# reddit_image_save in Dafny

This is a model of `reddit_image_save.rb`, a script that saves the images linked from Reddit. The model follows the script's steps in order:

1. **Feed URL.** `generate_custom_url` builds the feed URL for a list of subreddits and a sort mode.
2. **Table.** The parsed posts are stored in a hash from title to URL.
3. **Imgur fix-up.** Bare `imgur.com` page links are rewritten into direct `i.imgur.com` image links.
4. **Filter.** `is_picture?` and `reject!` drop every URL that is not a direct image.
5. **Download loop.** Each remaining post is saved as `dir/sanitize(title).ext`, unless that file already exists.

The modules:

- `Wrappers` holds `Option`, which stands in for Ruby's `nil`.
- `Text` holds ASCII case folding for `(?i)`, `String#index` (`IndexOf`) and the UTF-8 bytes `each_byte` visits.
- `FeedUrl` is `generate_custom_url`, with the byte order `Array#sort` uses.
- `Links` holds three per-URL pieces:
  - the imgur rewrite of lines 53-63 for one URL (`FixImgurUrl`);
  - `is_picture?`;
  - the extension regex of line 122.
- `Feed` is the ordered title-to-URL hash. `UrlTable` is a class whose methods change the table in place: `Put` (one assignment, line 49) is proved against `Store`, and its two loops, the imgur fix-up and `reject!`, against `FixAll` and `RejectPictures`. The loop that fills the table (lines 48-50) is the module-level method `BuildTable`, proved against `Build`.
- `Sanitize` is `sanitize`: a byte loop, and then `gsub!`.
- `Download` is the download loop and the whole script (`SaveImages`).

Ruby behaviour the model relies on:

- A Hash remembers the order in which its keys were first inserted.
- Assigning to an existing key keeps that key's place.
- `each_pair` walks the keys in that order.

Some of the code's behaviour differs from what its names or comments suggest; the model follows the code:

- **`is_picture?` is inverted.** Despite its name, `is_picture?` answers true for the URLs to DISCARD (`IsPicture`).
- **`.php` anywhere.** `.php` rejects a URL wherever it occurs after the first character, in any case, not only as its extension (`MentionsPhp`).
- **`www.imgur.com` is not rewritten.** The pattern of line 55 needs the `www` token to be followed directly by `imgur.com`. So `http://www.imgur.com/...` is left as it is and later dropped by the filter if it has no image extension (`Links.WwwDotImgurUntouched`).
- **The first title wins a name collision.** Two titles can sanitise to the same file name. `File.exist?` is checked before each download, so the FIRST of them in hash order is fetched and the later ones are skipped (`Download.PlanFirstWins`; `Download.PlanPathsFresh` adds that no two downloads share a path). The last title does not overwrite the file.
- **`sanitize` is not idempotent.** `"a b"` becomes `"a_b"`, and `"a_b"` becomes `"ab"`, because `_` is not a retained byte (`Sanitize.SanitizeNotIdempotent`).

## Model

| member | source | states |
|---|---|---|
| Text.Lower | reddit_image_save.rb:123 | definition of ASCII `downcase`, also the comparison under `(?i)` (lines 56, 59, 67, 68); it keeps the length, and its properties are the rows `LowerNoCapitals`, `LowerIdempotent` and `LowerOfLowercase` |
| Text.LowerNoCapitals | reddit_image_save.rb:123 | no upper-case ASCII letter is left; an upper-case letter becomes its lower-case letter, and every other character is kept |
| Text.LowerIdempotent | reddit_image_save.rb:123 | lower-casing twice is lower-casing once |
| Text.LowerOfLowercase | reddit_image_save.rb:123 | a string without upper-case ASCII letters is left as it is |
| Text.IndexOf | reddit_image_save.rb:56 | `String#index`: the result is an occurrence at or after `from`, and there is no earlier one; `None` only when there is no occurrence at all |
| Text.Utf8Char | reddit_image_save.rb:98 | a character is 1-4 bytes; an ASCII character is its own code; every byte of a non-ASCII character is at least 0x80 |
| Text.Utf8Encode | reddit_image_save.rb:98 | definition of the bytes `each_byte` visits, one `Utf8Char` per character; its properties are the rows `AsciiEncode` and `SanitizedNonAscii` |
| FeedUrl.PrecedesTotal | reddit_image_save.rb:27 | the string order `sort` uses is total |
| FeedUrl.PrecedesAntisymmetric | reddit_image_save.rb:27 | two strings that precede each other are equal |
| FeedUrl.PrecedesTransitive | reddit_image_save.rb:27 | the string order is transitive |
| FeedUrl.InsertSorted | reddit_image_save.rb:27 | inserting into a sorted list gives a sorted list holding the same names plus the new one |
| FeedUrl.SortNames | reddit_image_save.rb:27 | `reddit_list.sort` is sorted and a permutation of its input |
| FeedUrl.SortedUnique | reddit_image_save.rb:27 | two sorted lists with the same elements are equal, so the sorted order is unique |
| FeedUrl.Join | reddit_image_save.rb:27 | definition of `join('+')`; the joined text is stated by `CustomUrlShape` |
| FeedUrl.CustomUrl | reddit_image_save.rb:26-28 | definition of `generate_custom_url`; its properties are the rows `CustomUrlShape` and `CustomUrlOrderInvariant` |
| FeedUrl.CustomUrlShape | reddit_image_save.rb:26-28 | the URL is `http://www.reddit.com/r/`, then the sorted names joined by `+`, then `/`, the sort mode and `.json`, for any sorted permutation of the names |
| FeedUrl.CustomUrlOrderInvariant | reddit_image_save.rb:26-28 | any two orderings of the same names give the same URL |
| Links.MatchesImgur | reddit_image_save.rb:55 | definition of the pattern of line 55; its properties are the rows `TokenRunChars`, `ImgurIndex`, `FixImgurUrlChanges` and `FixedUrlDoesNotMatch` |
| Links.HasImageSuffix | reddit_image_save.rb:59 | definition of the image-extension pattern of line 59 (`before` 0) and of line 67 (`before` 1, for `.+`); its properties are the rows `FixImgurUrlRewrites` and `DirectImageExtension` |
| Links.FixImgurUrl | reddit_image_save.rb:55-61 | definition of one pass of the imgur loop; its properties are the rows `ImgurIndex` through `FixImgurUrlExample` |
| Links.TokenRunChars | reddit_image_save.rb:55 | a run of `http://`/`www` tokens contains only the characters of those tokens |
| Links.ImgurIndex | reddit_image_save.rb:55-56 | when line 55 matches with `imgur.com` at `k`, the case-insensitive search of line 56 finds the same `k` |
| Links.FixImgurUrlRewrites | reddit_image_save.rb:55-61 | in a matching URL, `i.` is inserted at the match; `.jpg` is appended exactly when there was no image extension; the result always ends in an image extension |
| Links.FixedUrlDoesNotMatch | reddit_image_save.rb:55-56 | a rewritten URL no longer matches line 55 |
| Links.FixImgurUrlIdempotent | reddit_image_save.rb:53-63 | rewriting twice gives the same URL as rewriting once |
| Links.FixImgurUrlChanges | reddit_image_save.rb:55 | a URL changes if and only if it matches line 55 |
| Links.FixImgurUrlExample | reddit_image_save.rb:55-61 | `http://imgur.com/abc123` becomes `http://i.imgur.com/abc123.jpg` |
| Links.WwwDotImgurUntouched | reddit_image_save.rb:55 | `http://www.imgur.com/abc` is not rewritten |
| Links.MentionsPhp | reddit_image_save.rb:68 | definition of the pattern of line 68; used by the rows `IsPicture` and `FixedUrlKept` |
| Links.IsDirectImage | reddit_image_save.rb:67-68 | definition of a URL the filter keeps; its properties are the rows `IsPicture` and `DirectImageExtension` |
| Links.IsPicture | reddit_image_save.rb:65-70 | true exactly when the URL is not a direct image, where a direct image has an image extension, at least one character before its dot, and no `.php` after its first character |
| Links.FixedUrlKept | reddit_image_save.rb:58-61 | a rewritten imgur URL passes the filter exactly when it has no `.php` |
| Links.LastDot | reddit_image_save.rb:122 | the index of a `.` with no `.` after it, or `None` when the string has no `.` |
| Links.Extension | reddit_image_save.rb:122 | `/\.([^\.]+)$/` matches exactly when the URL has a dot and does not end in one; the capture is nonempty, has no dot, and follows the URL's final dot |
| Links.LastDotAt | reddit_image_save.rb:122 | a dot with no dot after it is the one `LastDot` finds |
| Links.ExtensionOfDotSuffix | reddit_image_save.rb:122 | a URL ending in `.` plus an extension without dots has exactly that text, as written, as its extension |
| Links.DirectImageExtension | reddit_image_save.rb:67 | every URL the filter keeps has an extension, and lower-cased it is one of `bmp gif jpeg jpg png tiff` |
| Feed.Store | reddit_image_save.rb:49 | definition of one hash assignment; its properties are the rows `StoreWellFormed` and `UrlTable.Put` |
| Feed.Build | reddit_image_save.rb:46-50 | definition of the filled hash; its properties are the rows `BuildWellFormed`, `BuildKeys`, `BuildLastWins`, `BuildOrder` and `BuildTable` |
| Feed.FixAll | reddit_image_save.rb:53-63 | definition of the hash after the imgur loop; its properties are the rows `FixAllChanges`, `FixAllIdempotent` and `UrlTable.FixImgurLinks` |
| Feed.KeptTitles | reddit_image_save.rb:73-75 | definition of the keys `reject!` keeps, in order; its properties are the rows `KeptTitlesMembers`, `KeptTitlesDistinct` and `KeptTitlesOrder` |
| Feed.RejectPictures | reddit_image_save.rb:73-75 | definition of the hash after `reject!`; its properties are the rows `RejectPicturesKeeps`, `RejectPicturesOrder` and `UrlTable.RejectNonPictures` |
| Feed.Entries | reddit_image_save.rb:120 | `each_pair` visits one pair per key, and its pairs are exactly the keys with their stored URLs |
| Feed.StoreWellFormed | reddit_image_save.rb:49 | one assignment keeps every key in the order exactly once |
| Feed.BuildWellFormed | reddit_image_save.rb:46-50 | the built table lists every key exactly once |
| Feed.BuildKeys | reddit_image_save.rb:48-50 | a title is a key if and only if some post carries it |
| Feed.BuildLastWins | reddit_image_save.rb:49 | a title maps to the URL of its last post |
| Feed.BuildOrder | reddit_image_save.rb:48-50 | keys are ordered by the first appearance of their titles |
| Feed.FixAllChanges | reddit_image_save.rb:53-63 | the imgur loop changes a stored URL if and only if it matches line 55, and keeps every key |
| Feed.FixAllIdempotent | reddit_image_save.rb:53-63 | a second imgur loop changes nothing |
| Feed.KeptTitlesMembers | reddit_image_save.rb:73-75 | a title is kept if and only if it is a key whose URL `is_picture?` does not flag |
| Feed.KeptTitlesDistinct | reddit_image_save.rb:73-75 | the kept titles are distinct |
| Feed.KeptTitlesOrder | reddit_image_save.rb:73-75 | two kept titles are in the order they had among the keys |
| Feed.RejectPicturesKeeps | reddit_image_save.rb:73-75 | `reject!` leaves a well-formed table whose pairs are exactly the old pairs not flagged by `is_picture?`, with their titles and URLs unchanged |
| Feed.RejectPicturesOrder | reddit_image_save.rb:73-75 | `reject!` keeps the order: a title kept before another stood before it in the table too |
| Feed.UrlTable.constructor | reddit_image_save.rb:46 | `urls = {}` is the empty table |
| Feed.UrlTable.Put | reddit_image_save.rb:49 | `urls[title] = url` stores the URL, and appends the title only when it is new |
| Feed.UrlTable.FixImgurLinks | reddit_image_save.rb:53-63 | the in-place loop leaves the table equal to `FixAll` of the old table |
| Feed.UrlTable.RejectNonPictures | reddit_image_save.rb:73-75 | the in-place `reject!` leaves the table equal to `RejectPictures` of the old table |
| Feed.BuildTable | reddit_image_save.rb:46-50 | the loop over the posts yields the table `Build(feed)` |
| Sanitize.IsRetained | reddit_image_save.rb:99 | definition of the byte test of line 99; its properties are the rows `RetainedChars` and `SanitizedByte` |
| Sanitize.SanitizedName | reddit_image_save.rb:96-105 | definition of `sanitize` on bytes; its properties are the rows `Sanitize` through `SanitizeNotIdempotent` |
| Sanitize.Retained | reddit_image_save.rb:96-102 | the accumulator is never longer than the input bytes |
| Sanitize.ReplaceSpaces | reddit_image_save.rb:103 | `gsub!(' ', '_')` keeps the length and replaces exactly the spaces, position by position |
| Sanitize.Sanitize | reddit_image_save.rb:96-105 | the byte loop followed by `gsub!` returns `SanitizedName` of the title's UTF-8 bytes |
| Sanitize.RetainedChars | reddit_image_save.rb:99-100 | the accumulator holds only spaces, digits and ASCII letters |
| Sanitize.SanitizedNameChars | reddit_image_save.rb:96-105 | a sanitised name uses only `[A-Za-z0-9_]` |
| Sanitize.SanitizedNameLength | reddit_image_save.rb:96-105 | a sanitised name is at most as long as the title's byte length |
| Sanitize.RetainedConcat | reddit_image_save.rb:98-102 | filtering the bytes of a concatenation concatenates the filtered parts |
| Sanitize.ReplaceSpacesConcat | reddit_image_save.rb:103 | `gsub!` distributes over concatenation |
| Sanitize.SanitizedNameConcat | reddit_image_save.rb:96-105 | sanitising distributes over concatenation of byte strings |
| Sanitize.SanitizedByte | reddit_image_save.rb:99-103 | one byte gives `_` for a space, itself for a digit or letter, and nothing otherwise |
| Sanitize.SanitizedNonAscii | reddit_image_save.rb:98-100 | a non-ASCII character leaves nothing in the name |
| Sanitize.AsciiEncode | reddit_image_save.rb:98 | an ASCII title's bytes are its character codes |
| Sanitize.SanitizeExample | reddit_image_save.rb:96-105 | `"Cat!! #1"` sanitises to `"Cat_1"` |
| Sanitize.SanitizeNotIdempotent | reddit_image_save.rb:96-105 | `"a b"` sanitises to `"a_b"`, and that name sanitises to `"ab"` |
| Download.Plan | reddit_image_save.rb:120-126 | definition of the download loop's outcome; its properties are the rows `PlanAborts`, `PlanPathsFresh`, `PlanDownloadsFromEntries`, `PlanCoversEntries` and `DownloadAll` |
| Download.DestinationPath | reddit_image_save.rb:122-123 | a path exists exactly when the URL has a dot and does not end in one |
| Download.DirectImagePath | reddit_image_save.rb:122-123 | for a kept URL, the path is `dir/`, then the sanitised title, then `.` and the URL's own extension lower-cased, which is one of the six image extensions |
| Download.PlanAborts | reddit_image_save.rb:122-123 | the script stops (`nil.downcase`) exactly when a visited URL has no extension |
| Download.PlanPathsFresh | reddit_image_save.rb:123-124 | no download targets a file that existed before, and no two downloads share a path |
| Download.PlanDownloadsFromEntries | reddit_image_save.rb:120-124 | every download is a visited post's URL saved under that post's path |
| Download.PlanCoversEntries | reddit_image_save.rb:123-124 | unless the script stops, every visited post's file either existed or is downloaded |
| Download.PlanFirstWins | reddit_image_save.rb:123-124 | when posts collide at a new path, the first of them in hash order is downloaded there, and every download to that path is that post's URL |
| Download.Pipeline | reddit_image_save.rb:46-75 | the table the download loop walks is well formed |
| Download.PipelineDirectImages | reddit_image_save.rb:73-75 | every pair reaching the download loop is a direct image link |
| Download.PipelineNeverAborts | reddit_image_save.rb:122-123 | after the filter, `ext.downcase` never meets `nil` |
| Download.PipelineDownloads | reddit_image_save.rb:120-126 | the script never stops on a missing extension, and every download is a direct image link saved under a path that did not exist before |
| Download.DownloadAll | reddit_image_save.rb:120-126 | the download loop over a table makes exactly the downloads `Plan` describes |
| Download.SaveImages | reddit_image_save.rb:46-126 | the whole script makes `Plan`'s downloads for the filtered table; it never stops on a missing extension; every download is a direct image link to a path that did not exist before |
| Download.ExampleSave | reddit_image_save.rb:46-126 | for posts `Cat!! #1` → `http://imgur.com/abc123` and `Doc` → `http://example.com/file.php`, the script downloads only `http://i.imgur.com/abc123.jpg`, into `pics/Cat_1.jpg`, and downloads nothing if that file exists |

## Left out

- HTTP: `get_page_source`, `fetch` with its redirect limit of 10, and the transfer in `download_file` (lines 35-43, 83-92, 108-116) are network calls. A download is modelled as the `(url, path)` pair handed to `download_file`. Network and HTTP errors are not modelled, so neither are the exceptions `fetch` raises (lines 84 and 90), which stop the script.
- `JSON.parse` (line 47): the feed is given as the sequence of `(title, url)` pairs under `doc['data']['children']`.
- Filesystem: `FileUtils.mkdir_p` (line 79) and file writes are left out. `File.exist?` (line 123) is a set of paths that is given at the start and grows with each download.
- Console output (lines 31-32, 121, 128) is left out.
- The configuration constants (lines 13-19) are not modelled: `CustomUrl` takes any names and sort mode, and `SaveImages` any directory.
- Regex anchors: `^` and `$` also match at line breaks in Ruby. URLs are assumed to contain no newline, so the anchors mean the start and end of the string.
- `(?i)` and `downcase`: case folding is ASCII-only (`Lower`). Ruby applies Unicode case folding under `(?i)`, under which a few non-ASCII characters match ASCII letters, and since Ruby 2.4 `downcase` lower-cases non-ASCII letters too; neither is modelled. For `downcase` (line 123) this changes no result the model states: every URL that reaches the download loop has an ASCII image extension (`Links.DirectImageExtension`).
- Titles are taken to be UTF-8 strings. Other Ruby string encodings are not modelled.
- `download_file` computes an `ext` of its own (line 111) and never uses it, so it is left out.
- Text.Utf8Char: the contract states the encoding's length and its ASCII/non-ASCII split, not the full bit layout of multi-byte sequences. The sanitiser only depends on that split.
