# junholeekr-blog core, modelled in Dafny

This project models the logic under the rendering of the junholeekr-blog
Next.js blog and proves properties of it. Each source file of the core has
its own module:

- `StatsStore` (lib/database.ts): the view-count store, a JSON document
  `{ posts: id -> { views, lastViewed } }`. Reads fail open. An increment
  rewrites the whole document, and a failed write is swallowed.
- `Posts` (lib/posts.ts): post ids derived from file names, and the post
  listing. The listing joins in the stored counts, spreads the front matter
  last and sorts newest first with a comparator that never returns 0. Also
  `getAllPostIds`, `getPostData` and the legacy front-matter view counter.
- `PostsRoute` (src/app/api/posts/route.ts): the post-creation endpoint. It
  checks auth, required fields, the slug pattern and conflicts, in that
  order. It derives the excerpt and writes the front-matter file.
- `Utils` (lib/utils.ts): thumbnail extraction, `truncateText` and the
  day-difference bucketing of `formatDate`.
- `WritePage` (src/app/admin/write/page.tsx): tag add/remove, image
  insertion, read-time estimate, table-of-contents extraction with anchor
  ids, and the slug suggestion.
- `Archive` (src/app/archive/page.tsx): grouping posts by year, and the
  years listed newest first.
- `UploadRoute` (src/app/api/upload/route.ts): the ordered rejection checks,
  the sanitised file name and the returned url.
- `PostFile`: a reader for the post file the create route writes, line by
  line, as an independent definition of what each line holds. Its round trip
  `ReadFileContent` shows that the written text carries every field.

Shared helpers live in `Wrappers` (`Option`, `Result`), `JsString` (JavaScript
whitespace, `trim`, character stripping, decimal rendering, string
comparison, decimal reading) and `Json` (`JSON.stringify` of strings, and a
JSON string reader that undoes it).

The environment becomes arguments:
- the file system is a map or a sequence of files;
- the existence check for thumbnails is a set of site paths under `public`;
- authentication is a boolean;
- the clock is a timestamp argument;
- the success of each write is a boolean;
- gray-matter parsing and stringifying, and the remark renderer, are function
  parameters.

Where the code and its design notes differ, the model follows the code:
- A `views` key in a post's front matter replaces the count from the stats
  store, both in the listing and in `getPostData`, because the front matter is
  spread after `views`. The create route always writes such a key.
- The create route checks authentication before it reads the body. An
  unauthenticated request gets 401 even when its body is not JSON.
- The excerpt gets `...` when the original content is longer than 150
  characters, even if nothing was cut from the stripped text
  (`PostsRoute.EllipsisWithoutCut`).

## Model

| member | source | states |
|---|---|---|
| StatsStore.ReadDatabase | lib/database.ts:23-34 | a missing or unreadable document reads as the empty store; a stored one reads as its `posts` map |
| StatsStore.WriteDatabase | lib/database.ts:37-43 | a successful write is read back as written; a failed write leaves the document as it was |
| StatsStore.GetPostViews | lib/database.ts:46-49 | the stored count of a known id, 0 for any id without a record |
| StatsStore.IncrementPostViews | lib/database.ts:52-65 | returns the previous count plus one, a first view returning 1. On a successful write the id gets that count and a `lastViewed` stamp, and every other record is unchanged. On a failed write the document is unchanged, yet the count is still returned |
| StatsStore.GetAllPostStats | lib/database.ts:68-71 | the whole `posts` map; it agrees with `getPostViews` on every id, present or absent |
| StatsStore.FreshStoreReadsZero | lib/database.ts:23-34 | with no readable document every id has 0 views and the stats map is empty |
| StatsStore.IncrementThenRead | lib/database.ts:46-65 | after a successful increment, reading the id gives the returned count, and every other id reads as before |
| StatsStore.IncrementManyCount | lib/database.ts:52-65 | after a run of increments the count grew by exactly the number of writes that succeeded |
| Posts.PostId | lib/posts.ts:37 | a file name ending in `.md` loses exactly that suffix; any other name is its own id |
| Posts.PostIdOfMarkdownFile | lib/posts.ts:37 | the id of `id.md` is `id` |
| Posts.JoinedViews | lib/posts.ts:46 | the joined count is the stored count when it is present and non-zero, otherwise 0 |
| Posts.JoinedViewsAgree | lib/posts.ts:34-46 | joining through `getAllPostStats` gives the same count as `getPostViews` |
| Posts.Spread | lib/posts.ts:48-53 | the record has `id`, `thumbnail`, `views` and the front-matter keys. Every front-matter key keeps its own value, and the computed values fill in only the keys the front matter lacks |
| Posts.Entries | lib/posts.ts:36-54 | one record per directory entry, in directory order |
| Posts.SortDescending | lib/posts.ts:56-62 | the result is a permutation of the input, with no earlier key less than a later one under string comparison |
| Posts.GetSortedPostsData | lib/posts.ts:32-63 | the listing is a permutation of the directory's records, one per file, sorted newest first by `date` |
| Posts.LaterDateListedFirst | lib/posts.ts:56-62 | a post with a later date is always listed before one with an earlier date |
| Posts.ListingCoversDirectory | lib/posts.ts:33-56 | every file of the directory has its record in the listing |
| Posts.GetAllPostIds | lib/posts.ts:66-75 | one id per directory entry, derived from its file name |
| Posts.AllPostIdsMatchListing | lib/posts.ts:32-75 | when no front matter has an `id` key, an id is in `getAllPostIds` exactly when some listed post carries it |
| Posts.ListedViews | lib/posts.ts:46-53 | a listed post's `views` is the front matter's own when it has one, else the stored count |
| Posts.Lookup | lib/posts.ts:78-79 | none exactly when no file has the name; otherwise the contents of a file with that name |
| Posts.LookupFirst | lib/posts.ts:78-79 | when several files share a name, the first one in directory order is read |
| Posts.GetPostData | lib/posts.ts:77-96 | a missing file is an error. Otherwise the record has `id`, `contentHtml`, `views` and the front-matter keys, with the front matter winning on every key it has |
| Posts.Store | lib/posts.ts:111 | writing a file replaces the contents of the files with that name and changes nothing else |
| Posts.BumpViews | lib/posts.ts:104-107 | the JavaScript value of `(views || 0) + 1`: a falsy value gives 1, a number grows by one, `true` gives 2, and a non-empty string or other value gets `1` appended |
| Posts.IncrementViews | lib/posts.ts:99-111 | a missing file is an error, and so is a failed write, which the function does not catch. It succeeds exactly when the file exists and the write succeeds. The file is then rewritten with `views` bumped, every other front-matter key and the body kept, and no other file touched |
| Posts.LookupStore | lib/posts.ts:110-111 | a file that was written reads back with the new contents |
| Posts.IncrementViewsReadBack | lib/posts.ts:99-111 | when parsing undoes stringifying, a post with numeric `views` n reads back with n + 1 and everything else unchanged |
| PostsRoute.SuggestedSlugAccepted | src/app/api/posts/route.ts:26 | a non-empty slug suggested by the editor passes the server's slug pattern |
| PostsRoute.Take | src/app/api/posts/route.ts:51 | `substring(0, n)` is the first n characters, or the whole string when it is shorter |
| PostsRoute.Excerpt | src/app/api/posts/route.ts:51 | the excerpt is at most 153 characters: the trimmed first 150 characters of the content without `#`, `*` and backticks, followed by `...` when the original content is longer than 150 |
| PostsRoute.ExcerptHasNoMarks | src/app/api/posts/route.ts:51 | no `#`, `*` or backtick survives into the excerpt, the added `...` included |
| PostsRoute.EllipsisWithoutCut | src/app/api/posts/route.ts:51 | 151 `#` signs give the excerpt `...` although nothing was cut |
| PostsRoute.ShortExcerptIsReadableText | src/app/api/posts/route.ts:51 | a content of at most 150 characters has an excerpt as long as the text the read-time estimate counts |
| PostsRoute.DatePart | src/app/api/posts/route.ts:36 | `split("T")[0]` is the longest prefix without a `T` |
| PostsRoute.DatePartOfTimestamp | src/app/api/posts/route.ts:36 | the stored date of an ISO 8601 timestamp is its first ten characters, `YYYY-MM-DD` |
| PostsRoute.TagList | src/app/api/posts/route.ts:57 | missing or empty tags render as nothing, and one tag renders in single quotes |
| PostsRoute.TagListStep | src/app/api/posts/route.ts:57 | two or more tags render as the first tag in single quotes, `, `, and the list of the others |
| PostsRoute.TocJson | src/app/api/posts/route.ts:60 | a missing table of contents is written `[]`; any text starts with `[` and ends with `]`, and `PostFile.ReadTocJson` reads the entries back |
| PostsRoute.OrDefault | src/app/api/posts/route.ts:58-59 | a missing or zero number falls back to its default (1 for `readTime`, 0 for `views`) |
| PostsRoute.FileContent | src/app/api/posts/route.ts:53-64 | the file starts with the front matter's title, date, excerpt and tags lines. It ends with the closing `---`, a blank line, the content as sent and a line break. `PostFile.ReadFileContent` reads every field back |
| PostsRoute.Post | src/app/api/posts/route.ts:11-88 | 401 comes first, then 500 for an unreadable body, 400 for a missing field, 400 for a bad slug, 409 for an existing file and 500 for a failed write. The reply is 201 exactly when every check passes. Then exactly one file, `slug.md`, is added with the serialised text and no other file changes; on any other reply nothing changes |
| PostsRoute.Create | src/app/api/posts/route.ts:39-72 | after the body checks: 409 exactly when `slug.md` exists, else 500 on a failed write and 201 on success, which adds `slug.md` with the serialised text and changes nothing else |
| PostsRoute.NoOverwrite | src/app/api/posts/route.ts:43-48 | an existing post file keeps its text whatever the request |
| PostsRoute.SecondCreateConflicts | src/app/api/posts/route.ts:43-48 | repeating a successful creation gets 409 and changes nothing |
| Json.Escape | src/app/api/posts/route.ts:60 | the escaped text is no shorter than the string, and every `"` in it is escaped |
| Json.Quote | src/app/api/posts/route.ts:60 | a string literal is the escaped text between double quotes |
| Json.ReadChar | src/app/api/posts/route.ts:60 | each escaped character, short escape or `\u00XX`, reads back as that character followed by what the rest reads as |
| Json.ReadUnicode | src/app/api/posts/route.ts:60 | a control character without a short escape, written `\u00XX`, reads back as itself |
| Json.ReadEscaped | src/app/api/posts/route.ts:60 | a JSON string reader reads back exactly the string `JSON.stringify` escaped, stopping right after the closing quote |
| Json.ReadLiteral | src/app/api/posts/route.ts:60 | reading a literal consumes at least its opening quote |
| Json.ReadQuoted | src/app/api/posts/route.ts:60 | a whole literal, quotes included, reads back as its string followed by the rest |
| Utils.FirstImage | lib/utils.ts:7-8 | the leftmost, then shortest, match of `!\[.*?\]\((.*?)\)` on one line, and none exactly when the pattern matches nowhere |
| Utils.RefAfterFirstOpen | lib/utils.ts:7-8 | the lazy alt group stops at the line's first `](`: every match from a start has its `](` there or later and its `)` on the same line |
| Utils.SitePath | lib/utils.ts:19-21 | the path starts with `/`; a `/` is prepended only when missing |
| Utils.ExtractThumbnail | lib/utils.ts:5-35 | only the first image counts. An empty target gives null, and a target starting with `http` is returned as is. Any other target gives its `/`-rooted path exactly when that file exists under `public` |
| Utils.TruncateText | lib/utils.ts:68-71 | text within the limit is returned as is. Longer text becomes the trim of its first `maxLength` characters plus `...`, at most `maxLength + 3` long |
| Utils.TruncateTextDetermined | lib/utils.ts:68-71 | for long text, any trim of the first `maxLength` characters is the kept part, so the result is fixed by the input |
| Utils.TruncateTextTrimmedPrefix | lib/utils.ts:68-71 | when the first `maxLength` characters have no whitespace at either end, they are kept whole, followed by `...` |
| Utils.Bucket | lib/utils.ts:51-59 | 0 days is today and 1 is yesterday; otherwise up to 7 is days ago, and 8 to 30 is the rounded-up week count, which lies in 2 to 5. More than 30 is the calendar date |
| Utils.FormatDate | lib/utils.ts:51-65 | the label texts: `오늘`, `어제`, `N일 전` with the day count for up to 7 days (negative counts included), `N주 전` with the rounded-up week count for 8 to 30 days, and the calendar date beyond 30 days |
| WritePage.AddTag | src/app/admin/write/page.tsx:85-91 | the trimmed tag is appended only when it is non-empty and new, so a duplicate-free list stays duplicate-free |
| WritePage.RemoveTag | src/app/admin/write/page.tsx:93-95 | every occurrence of the tag goes, and every other tag keeps its count |
| WritePage.RemoveTagAppend | src/app/admin/write/page.tsx:93-95 | removal works piecewise, so the other tags keep their order |
| WritePage.AddThenRemove | src/app/admin/write/page.tsx:85-95 | removing a tag just added restores the list |
| WritePage.InsertImage | src/app/admin/write/page.tsx:79-82 | the content is kept as a prefix and grows by the image markup |
| WritePage.InsertedImageIsThumbnail | src/app/admin/write/page.tsx:79-82 | an image inserted into content without images becomes the post's thumbnail, when its url and alt text do not break the link |
| WritePage.InsertedImageIsFirst | src/app/admin/write/page.tsx:79-82 | the inserted image is the leftmost, then shortest, image reference of the new content |
| WritePage.CalculateReadTime | src/app/admin/write/page.tsx:118-123 | at least one minute. It is 1 exactly when at most 300 characters remain after stripping and trimming; otherwise it is the rounded-up number of 300-character minutes |
| WritePage.HeadingAtSound | src/app/admin/write/page.tsx:127 | a heading found at a line start is a match of `^(#{1,6})\s+(.+)$` |
| WritePage.HeadingAtGreedy | src/app/admin/write/page.tsx:127 | of all the ways to match at a line start, the one reported has the longest whitespace run, as backtracking tries first |
| WritePage.HeadingAtComplete | src/app/admin/write/page.tsx:127 | nothing is found at a line start exactly when the pattern cannot match there |
| WritePage.ScanHeadings | src/app/admin/write/page.tsx:131-141 | the headings come in document order and do not overlap |
| WritePage.ScanOrdered | src/app/admin/write/page.tsx:131-141 | the headings found from any line start come in document order, each ending before the next begins |
| WritePage.ScanHeadingsSound | src/app/admin/write/page.tsx:127-131 | every heading reported is a match that starts at a line start |
| WritePage.ScanHeadingsComplete | src/app/admin/write/page.tsx:127-131 | no match is missed: each place the pattern matches lies within a reported heading |
| WritePage.AnchorId | src/app/admin/write/page.tsx:134 | the id holds only `a-z`, `0-9`, Hangul syllables and `-`, with no `--` and no dash at either end |
| WritePage.CollapseDashesKeepsClean | src/app/admin/write/page.tsx:134 | collapsing dash runs changes nothing in a text without two dashes in a row |
| WritePage.AnchorIdIdempotent | src/app/admin/write/page.tsx:134 | an anchor id is its own anchor id |
| WritePage.AnchorIdFixesWellFormed | src/app/admin/write/page.tsx:134 | a lower-case id without `--` or an edge dash is its own anchor id |
| WritePage.AnchorIdKeepsLetters | src/app/admin/write/page.tsx:134 | the id's letters, digits and Hangul syllables are exactly those of the lower-cased heading text, in order |
| WritePage.AnchorIdEmpty | src/app/admin/write/page.tsx:134 | a heading's id is empty exactly when no character of the text is, once lower-cased, a letter `a-z`, a digit or a Hangul syllable |
| WritePage.AnchorIdSeparator | src/app/admin/write/page.tsx:134 | a space between two texts that each hold a letter, digit or Hangul syllable (so each has a non-empty id) becomes exactly one dash: the id of `a + " " + b` is the id of `a`, a dash, and the id of `b` |
| WritePage.CleanJoin | src/app/admin/write/page.tsx:134 | the dash-collapsing and edge-trimming replaces, applied to two texts that each hold a non-dash character, joined by a dash, give the two cleaned texts joined by one dash |
| WritePage.GenerateTableOfContents | src/app/admin/write/page.tsx:126-144 | one entry per heading match, in document order. The level is the number of `#` signs, the text is the heading text trimmed, and the id is that text's anchor id |
| WritePage.TableOfContentsEntry | src/app/admin/write/page.tsx:127-134 | every entry has a level from 1 to 6, sits on a line matching `^(#{1,6})\s+(.+)$`, has the trim of that line's heading text as text and a well-formed id keeping that text's letters |
| WritePage.SuggestSlug | src/app/admin/write/page.tsx:204-209 | the suggested slug consists of `a-z`, `0-9` and `-` only |
| WritePage.SuggestSlugIdempotent | src/app/admin/write/page.tsx:204-209 | a suggested slug suggests itself |
| WritePage.SuggestSlugKeepsSlug | src/app/admin/write/page.tsx:204-209 | a title made only of `a-z`, `0-9` and `-` is its own slug |
| WritePage.SuggestSlugKeepsLetters | src/app/admin/write/page.tsx:204-209 | the slug's letters and digits are exactly those of the lower-cased title, in order |
| WritePage.SuggestSlugSeparator | src/app/admin/write/page.tsx:204-209 | a whitespace run between two non-empty titles of `a-z`, `0-9`, whitespace and `-` with no edge whitespace becomes exactly one dash: the slug of `a + w + b` is the slug of `a`, a dash, and the slug of `b` |
| WritePage.DashWhitespaceRun | src/app/admin/write/page.tsx:209 | `replace(/\s+/g, "-")` turns a maximal whitespace run into one dash and leaves the text on both sides as it is |
| Archive.InYear | src/app/archive/page.tsx:10-17 | the posts of one year, each from the listing, and every post of that year |
| Archive.GroupByYear | src/app/archive/page.tsx:10-17 | a year has a group exactly when some post has that year, and its group is that year's posts in listing order |
| Archive.GroupKeepsOrder | src/app/archive/page.tsx:15 | within a group, posts keep their relative order from the listing |
| Archive.GroupSizesAddUp | src/app/archive/page.tsx:10-17 | over distinct years covering every post, the group sizes sum to the number of posts |
| Archive.Years | src/app/archive/page.tsx:19-21 | the years with a group, each once, strictly descending |
| Archive.DescendingListingUnique | src/app/archive/page.tsx:19-21 | a set of years has only one strictly descending listing |
| Archive.ListedGroupsCoverPosts | src/app/archive/page.tsx:10-28 | every post is counted exactly once across the listed groups |
| UploadRoute.Rejection | src/app/api/upload/route.ts:12-31 | checks in order: a missing file, then more than 5 MiB, then a type outside JPEG, PNG, GIF and WebP. A file is accepted exactly when it has at most 5 MiB and an allowed type |
| UploadRoute.SizeLimitIsInclusive | src/app/api/upload/route.ts:17 | exactly 5 MiB is accepted, one byte more is refused |
| UploadRoute.SafeFileName | src/app/api/upload/route.ts:37 | the safe name has the base name's UTF-16 length and only `[a-zA-Z0-9-_]`; an already safe name is kept |
| UploadRoute.SafeFileNameInPlace | src/app/api/upload/route.ts:37 | within the Basic Multilingual Plane each character stays in place, a disallowed one replaced by `_` |
| UploadRoute.StoredName | src/app/api/upload/route.ts:34-38 | the name is the timestamp, `_`, the sanitised base name and the extension, in that order |
| UploadRoute.ImageUrl | src/app/api/upload/route.ts:50 | the url is `/images/` followed by the file name |
| UploadRoute.StoredNameTimestamp | src/app/api/upload/route.ts:34-38 | the leading digits of a stored name are exactly the decimal timestamp |
| UploadRoute.DistinctTimestampsDistinctNames | src/app/api/upload/route.ts:33-38 | uploads at different times get different names |
| UploadRoute.Post | src/app/api/upload/route.ts:7-65 | a refused file gets 400 and an unreadable form 500, with nothing written. An accepted file gets 200 exactly when the write succeeds; the reply then carries the stored name and its url, and that url now exists |
| UploadRoute.UploadedImageBecomesThumbnail | src/app/api/upload/route.ts:47-53 | an uploaded image, inserted into content without images, becomes the post's thumbnail |
| JsString.Trim | lib/utils.ts:70 | `trim` removes exactly the leading and trailing JavaScript whitespace |
| JsString.TrimUnique | lib/utils.ts:70 | `trim` is the only text that is the input without its leading and trailing whitespace |
| JsString.TrimFilter | src/app/admin/write/page.tsx:207-208 | trimming removes none of the characters a later filter for non-whitespace keeps |
| JsString.TrimAvoids | lib/utils.ts:70 | trimming adds no character: a text without any of a set of characters still has none after `trim` |
| JsString.Strip | src/app/api/posts/route.ts:51 | `replace(/[...]/g, '')` drops exactly the listed characters and keeps the count of every other |
| JsString.FilterAppend | src/app/admin/write/page.tsx:208 | a character-class `replace(/[^...]/g, '')` works piecewise on a concatenation |
| JsString.FilterWithin | src/app/admin/write/page.tsx:208 | filtering for a class after filtering for a wider class is filtering for the class alone |
| JsString.NatToStringRoundTrip | src/app/api/upload/route.ts:38 | the decimal rendering of a number reads back as the number |
| JsString.ReadNatString | src/app/api/posts/route.ts:58-59 | a number's decimal text, followed by anything but a digit, reads back as the number and that rest |
| JsString.ReadIntString | src/app/api/posts/route.ts:58-59 | the same for integers, a negative one written with its `-` |
| JsString.LexTransitive | lib/posts.ts:57 | the string order `<` is transitive |
| JsString.LexConnected | lib/posts.ts:57 | of two different strings one is less than the other |
| PostFile.Expect | src/app/api/posts/route.ts:53-64 | a literal is found exactly when the text starts with it, and what follows it is returned |
| PostFile.ReadQuotedLineOf | src/app/api/posts/route.ts:54-56 | a single-quoted value without a line break, with its closing quote and line break, reads back as the value and the lines after it |
| PostFile.ReadTagList | src/app/api/posts/route.ts:57 | the tag list reads back as the tags, in order, as long as no tag holds a quote and a quote or comma does not follow the list |
| PostFile.ReadTocEntryJson | src/app/api/posts/route.ts:60 | one entry's JSON reads back as its level, text and id |
| PostFile.ReadEntriesJson | src/app/api/posts/route.ts:60 | the comma-joined entries and the closing `]` read back as the entries, in order |
| PostFile.ReadTocJson | src/app/api/posts/route.ts:60 | the table of contents as `JSON.stringify` writes it, `[]` when missing, reads back as the entries, none when there were none |
| PostFile.ReadHeadOf | src/app/api/posts/route.ts:53-57 | the title, date and excerpt lines read back as the three values when none holds a line break |
| PostFile.ReadFieldsOf | src/app/api/posts/route.ts:57-60 | the tags, `readTime`, `views` and `tableOfContents` lines read back as written |
| PostFile.ReadBody | src/app/api/posts/route.ts:61-64 | the text after the front matter is the closing `---`, a blank line, the content and a final line break, and the content is what lies between |
| PostFile.ReadFileContent | src/app/api/posts/route.ts:53-64 | the file `POST` writes reads back as every field it was given, with 1 for a missing or zero `readTime`, 0 for missing or zero `views`, and no tags or entries for missing ones |

## Left out

- UTF-16: strings are sequences of code points, while JavaScript lengths and indices count UTF-16 code units. Only `UploadRoute.SafeFileName` models the difference, turning a character outside the Basic Multilingual Plane into two `_`. Elsewhere lengths (the 150-character excerpt, the 300-character minute, `truncateText`) are in code points.
- JsString.LexLess: orders strings by code point, while JavaScript's `<` on the post dates (lib/posts.ts:57) compares UTF-16 code units. The two orders differ only when, at the first position where two dates differ, one has a character in U+E000..U+FFFF and the other a character above U+FFFF (U+10000 sorts after U+FFFF by code point, but its first code unit 0xD800 sorts before 0xFFFF). ISO dates never hold such characters.
- JsString.ToLower: lower-cases `A`-`Z` only, not every letter `toLowerCase` maps.
- Posts.DateOf: a `date` that is not a string sorts as the empty string. JavaScript would compare it after conversion.
- Numbers are integers: front-matter numbers, `readTime` and `views` have no fractions, NaN or infinities.
- Front matter is an abstract record. Gray-matter parsing and stringifying and the remark renderer are parameters, and YAML quoting is not modelled: a `'` in a title, excerpt or tag is written as is, as the route does.
- PostFile.ReadFileContent: the round trip holds only for a title, date and excerpt without a line break and tags without a quote, because the route escapes nothing. An excerpt is cut from the content and can hold a line break. A YAML reader would fold such a line; `PostFile` reads lines and gives none. `PostFile` is also more lenient than YAML about a `'` inside the title, date or excerpt.
- Posts.SortDescending: posts with equal dates come out in input order. Node's sort (V8's TimSort) with this comparator, which never returns 0, treats a run of equal dates as descending and reverses it. The contract leaves the order of ties free, and the model's order is not Node's.
- A stats document that parses but lacks `posts` is not modelled; it reads as a stored map.
- Prototype keys such as `__proto__` in maps are not modelled.
- The split of an uploaded file name into base name and extension (`path.extname`, `path.basename`) is an input. So are path joining and normalisation.
- Dates: `formatDate` takes the day difference and the calendar text as inputs (Date parsing, the Asia/Seoul time zone, `toLocaleDateString`). The archive takes each post's year as an input, so a date that does not parse (year NaN) is not modelled.
- The clock (`Date.now`, `new Date()`) is an argument; the timestamp's format is stated, not computed.
- JWT and cookie authentication is a boolean; the login, verify and logout routes are not part of this model.
- The body of a create request has typed fields. A field of another JSON type (say a number as `title`) is not modelled.
- The directory creation at start-up (lib/database.ts:17-20) and partial writes are left out; a write either succeeds or leaves the file unchanged.
- The lost-update race between concurrent increments of the stats file is left out; the model is sequential.
- The editor's UI state (clearing the tag input, upload progress, drag and drop, paste, navigation) and all rendering are left out.
- The `/api/posts/[id]/views` route and the view counter component are not part of this model.
