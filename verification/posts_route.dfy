/** The post-creation endpoint `POST` of src/app/api/posts/route.ts. The
    session check, the JSON body, the clock and the outcome of the file write
    are arguments; the posts directory is a map from file name to text. */
module PostsRoute {
  import opened Wrappers
  import opened JsString
  import Json
  import WritePage

  /** `/^[a-z0-9-]+$/.test(slug)`: one or more lower-case letters, digits
      and dashes, and nothing else. */
  predicate IsValidSlug(slug: string) {
    |slug| > 0 && forall i :: 0 <= i < |slug| ==> WritePage.SlugChar(slug[i])
  }

  /** A slug the editor suggests is accepted here whenever it is not empty. */
  lemma SuggestedSlugAccepted(title: string)
    ensures WritePage.SuggestSlug(title) == "" || IsValidSlug(WritePage.SuggestSlug(title))
  {
  }

  /** The fields of the request body; a field the body leaves out is
      `None`. */
  datatype Body =
    | Unparseable
    | Body(title: Option<string>, slug: Option<string>, content: Option<string>,
           tags: Option<seq<string>>, readTime: Option<int>,
           tableOfContents: Option<seq<WritePage.TocEntry>>, views: Option<int>)

  /** A string field that is present and not empty: the truthy ones. */
  predicate Given(field: Option<string>) {
    field.Some? && field.value != ""
  }

  /** The JSON reply: its status, and the slug of a created post. */
  datatype Response = Response(status: int, slug: Option<string>)

  /** The reply and the posts directory afterwards. */
  datatype Outcome = Outcome(response: Response, files: map<string, string>)

  /** `s.substring(0, n)` for `n >= 0`. */
  function Take(s: string, n: nat): (r: string)
    ensures |r| == if |s| <= n then |s| else n
    ensures r == s[..|r|]
  {
    if |s| <= n then s else s[..n]
  }

  /** The excerpt: the content without `#`, `*` and backticks, cut to 150
      characters and trimmed; `...` follows when the content itself (before
      any character was dropped) is longer than 150. */
  function Excerpt(content: string): (r: string)
    ensures |content| > 150 ==> r == Trim(Take(Strip(content, WritePage.MarkdownMarks), 150)) + "..."
    ensures |content| <= 150 ==> r == Trim(Strip(content, WritePage.MarkdownMarks))
    ensures |r| <= 153
  {
    var body := Trim(Take(Strip(content, WritePage.MarkdownMarks), 150));
    if |content| > 150 then body + "..." else body
  }

  /** No markup character survives into the excerpt. */
  lemma ExcerptHasNoMarks(content: string)
    ensures forall i :: 0 <= i < |Excerpt(content)| ==> Excerpt(content)[i] !in WritePage.MarkdownMarks
  {
    var taken := Take(Strip(content, WritePage.MarkdownMarks), 150);
    TrimAvoids(taken, WritePage.MarkdownMarks);
    var body := Trim(taken);
    if |content| > 150 {
      var r := body + "...";
      assert Excerpt(content) == r;
      assert forall i :: 0 <= i < |r| ==> r[i] == if i < |body| then body[i] else '.';
    } else {
      assert Excerpt(content) == body;
    }
  }

  /** The ellipsis follows the length of the content, not of what was cut:
      151 `#` signs give an excerpt of only `...`, though nothing was cut. */
  lemma EllipsisWithoutCut()
    ensures var content := seq(151, _ => '#');
            Strip(content, WritePage.MarkdownMarks) == "" && Excerpt(content) == "..."
  {
    var content := seq(151, _ => '#');
    StripAll(content, WritePage.MarkdownMarks);
    assert Trim(Take("", 150)) == "";
  }

  /** A post of at most 150 characters gets its whole readable text as
      excerpt: as many characters as the read-time estimate counts. */
  lemma ShortExcerptIsReadableText(content: string)
    requires |content| <= 150
    ensures |Excerpt(content)| == WritePage.ReadableLength(content)
  {
  }

  /** `new Date().toISOString().split("T")[0]`: the text before the first
      `T`, all of it when there is none. */
  function DatePart(iso: string): (d: string)
    ensures |d| <= |iso| && d == iso[..|d|]
    ensures forall i :: 0 <= i < |d| ==> d[i] != 'T'
    ensures |d| < |iso| ==> iso[|d|] == 'T'
  {
    if iso == [] || iso[0] == 'T' then [] else [iso[0]] + DatePart(iso[1..])
  }

  /** The shape `toISOString` produces for years 0 to 9999:
      `YYYY-MM-DDTHH:mm:ss.sssZ`. */
  predicate IsoTimestamp(iso: string) {
    && |iso| == 24
    && (forall i :: i in {0, 1, 2, 3, 5, 6, 8, 9, 11, 12, 14, 15, 17, 18, 20, 21, 22} ==> 0 <= i < 24 && IsDigit(iso[i]))
    && iso[4] == '-' && iso[7] == '-' && iso[10] == 'T' && iso[13] == ':' && iso[16] == ':'
    && iso[19] == '.' && iso[23] == 'Z'
  }

  /** The stored date is the `YYYY-MM-DD` prefix of the timestamp. */
  lemma DatePartOfTimestamp(iso: string)
    requires IsoTimestamp(iso)
    ensures DatePart(iso) == iso[..10]
  {
    var d := DatePart(iso);
    assert forall i :: 0 <= i < 10 ==> iso[i] != 'T' by {
      forall i | 0 <= i < 10
        ensures iso[i] != 'T'
      {
        if i != 4 && i != 7 {
          assert i in {0, 1, 2, 3, 5, 6, 8, 9, 11, 12, 14, 15, 17, 18, 20, 21, 22};
        }
      }
    }
    assert |d| >= 10;
    assert iso[10] == 'T';
  }

  /** Each tag between single quotes: `tags.map(tag => `'${tag}'`)`. */
  function QuotedTags(ts: seq<string>): (qs: seq<string>)
    ensures |qs| == |ts|
    ensures forall i :: 0 <= i < |ts| ==> qs[i] == "'" + ts[i] + "'"
    ensures |ts| > 0 ==> qs[1..] == QuotedTags(ts[1..])
  {
    seq(|ts|, i requires 0 <= i < |ts| => "'" + ts[i] + "'")
  }

  /** `tags?.map(tag => `'${tag}'`).join(', ') || ''`. */
  function TagList(tags: Option<seq<string>>): (r: string)
    ensures tags.None? || tags.value == [] ==> r == ""
    ensures tags.Some? && |tags.value| == 1 ==> r == "'" + tags.value[0] + "'"
  {
    match tags
    case None => ""
    case Some(ts) => Join(QuotedTags(ts), ", ")
  }

  /** Two or more tags: the first, quoted, then `, ` and the rest. */
  lemma TagListStep(ts: seq<string>)
    requires |ts| >= 2
    ensures TagList(Some(ts)) == "'" + ts[0] + "'" + ", " + TagList(Some(ts[1..]))
  {
    assert QuotedTags(ts)[1..] == QuotedTags(ts[1..]);
  }

  /** `JSON.stringify` of one table-of-contents entry. */
  function TocEntryJson(e: WritePage.TocEntry): string {
    "{\"level\":" + IntToString(e.level) + ",\"text\":" + Json.Quote(e.text) + ",\"id\":" + Json.Quote(e.id) + "}"
  }

  /** Each entry as `JSON.stringify` writes it inside the array. */
  function TocItems(es: seq<WritePage.TocEntry>): (items: seq<string>)
    ensures |items| == |es|
    ensures forall i :: 0 <= i < |es| ==> items[i] == TocEntryJson(es[i])
    ensures |es| > 0 ==> items[1..] == TocItems(es[1..])
  {
    seq(|es|, i requires 0 <= i < |es| => TocEntryJson(es[i]))
  }

  /** `JSON.stringify(tableOfContents || [])`. */
  function TocJson(toc: Option<seq<WritePage.TocEntry>>): (r: string)
    ensures toc.None? ==> r == "[]"
    ensures StartsWith(r, "[") && EndsWith(r, "]")
  {
    var r := "[" + Join(TocItems(toc.GetOr([])), ",") + "]";
    assert r[..1] == "[";
    r
  }

  /** `readTime || 1` and `views || 0`: a missing or zero number falls back
      to its default. */
  function OrDefault(n: Option<int>, default: int): (r: int)
    ensures n.Some? && n.value != 0 ==> r == n.value
    ensures n.None? || n.value == 0 ==> r == default
  {
    if n.Some? && n.value != 0 then n.value else default
  }

  /** The text of the new post file: the front matter between `---` lines,
      a blank line, the content as it was sent, and a final line break. */
  function FileContent(title: string, date: string, excerpt: string, tags: Option<seq<string>>,
                       readTime: Option<int>, toc: Option<seq<WritePage.TocEntry>>, views: Option<int>,
                       content: string): (text: string)
    ensures StartsWith(text, "---\ntitle: '" + title + "'\n" + "date: '" + date + "'\n" + "excerpt: '" + excerpt + "'\n" + "tags: [")
    ensures EndsWith(text, "\n---\n\n" + content + "\n")
  {
    var head := Head(title, date, excerpt);
    var tail := "\n---\n\n" + content + "\n";
    var middle := Fields(tags, OrDefault(readTime, 1), OrDefault(views, 0), toc);
    Framed(head, middle, tail);
    head + middle + tail
  }

  /** The front matter's first lines: title, date and excerpt, each single
      quoted on its own line, and the opening of the tag list. */
  function Head(title: string, date: string, excerpt: string): string {
    "---\ntitle: '" + title + "'\n" + "date: '" + date + "'\n" + "excerpt: '" + excerpt + "'\n" + "tags: ["
  }

  /** The rest of the front matter from the tags to the table of contents. */
  function Fields(tags: Option<seq<string>>, readTime: int, views: int, toc: Option<seq<WritePage.TocEntry>>): string {
    TagList(tags) + "]\nreadTime: " + IntToString(readTime) + "\nviews: " + IntToString(views)
    + "\ntableOfContents: " + TocJson(toc)
  }

  /** A text made of three parts starts with the first and ends with the
      last. */
  lemma Framed(head: string, middle: string, tail: string)
    ensures StartsWith(head + middle + tail, head) && EndsWith(head + middle + tail, tail)
  {
    var text := head + middle + tail;
    assert text[..|head|] == head;
    assert text[|text| - |tail|..] == tail;
  }

  /** `POST`: the checks in the order the handler makes them, and the one
      file it may add. */
  function Post(authenticated: bool, body: Body, files: map<string, string>, nowIso: string, writeOk: bool): (out: Outcome)
    ensures !authenticated ==> out == Outcome(Response(401, None), files)
    ensures authenticated && body.Unparseable? ==> out == Outcome(Response(500, None), files)
    ensures authenticated && body.Body? && !(Given(body.title) && Given(body.slug) && Given(body.content)) ==>
              out == Outcome(Response(400, None), files)
    ensures authenticated && body.Body? && Given(body.title) && Given(body.slug) && Given(body.content)
            && !IsValidSlug(body.slug.value) ==>
              out == Outcome(Response(400, None), files)
    ensures authenticated && body.Body? && Given(body.title) && Given(body.slug) && Given(body.content)
            && IsValidSlug(body.slug.value) && body.slug.value + ".md" in files ==>
              out == Outcome(Response(409, None), files)
    ensures out.response.status == 201 <==>
              && authenticated && body.Body? && Given(body.title) && Given(body.slug) && Given(body.content)
              && IsValidSlug(body.slug.value) && body.slug.value + ".md" !in files && writeOk
    ensures out.response.status == 201 ==>
              && out.response.slug == Some(body.slug.value)
              && out.files == files[body.slug.value + ".md" :=
                   FileContent(body.title.value, DatePart(nowIso), Excerpt(body.content.value), body.tags,
                               body.readTime, body.tableOfContents, body.views, body.content.value)]
    ensures out.response.status != 201 ==> out.files == files
  {
    if !authenticated then Outcome(Response(401, None), files)
    else if body.Unparseable? then Outcome(Response(500, None), files)
    else if !(Given(body.title) && Given(body.slug) && Given(body.content)) then Outcome(Response(400, None), files)
    else if !IsValidSlug(body.slug.value) then Outcome(Response(400, None), files)
    else Create(body, files, nowIso, writeOk)
  }

  /** The part of `POST` after the body passed its checks: refuse an
      existing slug with 409, else write the file, 500 if that fails. */
  function Create(body: Body, files: map<string, string>, nowIso: string, writeOk: bool): (out: Outcome)
    requires body.Body? && Given(body.title) && Given(body.slug) && Given(body.content)
    ensures body.slug.value + ".md" in files ==> out == Outcome(Response(409, None), files)
    ensures out.response.status == 201 <==> body.slug.value + ".md" !in files && writeOk
    ensures out.response.status == 201 ==>
              && out.response.slug == Some(body.slug.value)
              && out.files == files[body.slug.value + ".md" :=
                   FileContent(body.title.value, DatePart(nowIso), Excerpt(body.content.value), body.tags,
                               body.readTime, body.tableOfContents, body.views, body.content.value)]
    ensures out.response.status != 201 ==> out.files == files
  {
    var fileName := body.slug.value + ".md";
    if fileName in files then Outcome(Response(409, None), files)
    else if !writeOk then Outcome(Response(500, None), files)
    else
      var text := FileContent(body.title.value, DatePart(nowIso), Excerpt(body.content.value), body.tags,
                              body.readTime, body.tableOfContents, body.views, body.content.value);
      Outcome(Response(201, Some(body.slug.value)), files[fileName := text])
  }

  /** Nothing is ever overwritten: an existing post file keeps its text
      whatever the request. */
  lemma NoOverwrite(authenticated: bool, body: Body, files: map<string, string>, nowIso: string, writeOk: bool, name: string)
    requires name in files
    ensures var out := Post(authenticated, body, files, nowIso, writeOk);
            name in out.files && out.files[name] == files[name]
  {
  }

  /** Sending the same creation twice: the second one finds the file the
      first one wrote and is refused with 409, changing nothing. */
  lemma SecondCreateConflicts(body: Body, files: map<string, string>, nowIso: string, nowIso': string, writeOk: bool)
    ensures var first := Post(true, body, files, nowIso, true);
            first.response.status == 201 ==>
              Post(true, body, first.files, nowIso', writeOk) == Outcome(Response(409, None), first.files)
  {
  }
}
