/** Reading back the post file `POST` in src/app/api/posts/route.ts writes:
    the front-matter lines, the tag list, the numbers, the JSON table of
    contents and the content. The reader is an independent definition of
    what each line holds; the round-trip lemmas show that the text the route
    writes carries every field it was given. */
module PostFile {
  import opened Wrappers
  import opened JsString
  import Json
  import WritePage
  import PostsRoute

  /** The fields a reader finds in a post file. */
  datatype PostText = PostText(title: string, date: string, excerpt: string, tags: seq<string>,
                               readTime: int, views: int, tableOfContents: seq<WritePage.TocEntry>,
                               content: string)

  /** What follows the literal `lit` at the start of `t`, if `t` starts
      with it. */
  function Expect(t: string, lit: string): (r: Option<string>)
    ensures r.Some? <==> StartsWith(t, lit)
    ensures r.Some? ==> t == lit + r.value
  {
    if StartsWith(t, lit) then Some(t[|lit|..]) else None
  }

  lemma ExpectLiteral(lit: string, rest: string)
    ensures Expect(lit + rest, lit) == Some(rest)
  {
    assert (lit + rest)[..|lit|] == lit;
    assert (lit + rest)[|lit|..] == rest;
  }

  /** The position of the first `c` in `s`, `|s|` if there is none. */
  function Until(s: string, c: char): (n: nat)
    ensures n <= |s|
    ensures forall i :: 0 <= i < n ==> s[i] != c
    ensures n < |s| ==> s[n] == c
  {
    if s == [] || s[0] == c then 0 else 1 + Until(s[1..], c)
  }

  lemma UntilFirst(a: string, c: char, rest: string)
    requires forall i :: 0 <= i < |a| ==> a[i] != c
    ensures Until(a + [c] + rest, c) == |a|
  {
    var s := a + [c] + rest;
    assert s[|a|] == c;
    assert forall i :: 0 <= i < |a| ==> s[i] == a[i];
  }

  predicate NoLineFeed(s: string) {
    forall i :: 0 <= i < |s| ==> s[i] != '\n'
  }

  // ------------------------------------------------------------ lines

  /** A single-quoted value that ends its line: the text before the line
      break without the closing quote, and the lines after it. */
  function ReadQuotedLine(t: string): (r: Option<(string, string)>)
    ensures r.Some? ==> |r.value.1| < |t|
  {
    var n := Until(t, '\n');
    if n == |t| || n == 0 || t[n - 1] != '\'' then None else Some((t[..n - 1], t[n + 1..]))
  }

  lemma ReadQuotedLineOf(v: string, rest: string)
    requires NoLineFeed(v)
    ensures ReadQuotedLine(v + ("'\n" + rest)) == Some((v, rest))
  {
    var t := v + ("'\n" + rest);
    assert t == (v + "'") + ['\n'] + rest;
    UntilFirst(v + "'", '\n', rest);
    assert t[..|v|] == v;
    assert t[|v| + 2..] == rest;
  }

  // ------------------------------------------------------------- tags

  /** A tag list `'a', 'b'`: each tag runs from its opening quote to the
      next quote; the list ends where no further `, '` follows. */
  function ReadTags(t: string): (r: Option<(seq<string>, string)>)
    ensures r.Some? ==> |r.value.1| <= |t|
    decreases |t|
  {
    if t == [] || t[0] != '\'' then Some(([], t))
    else
      var body := t[1..];
      var n := Until(body, '\'');
      if n == |body| then None
      else
        var after := body[n + 1..];
        if |after| >= 3 && after[..3] == ", '" then
          match ReadTags(after[2..])
          case Some((more, rest)) => Some(([body[..n]] + more, rest))
          case None => None
        else Some(([body[..n]], after))
  }

  predicate NoQuote(s: string) {
    forall i :: 0 <= i < |s| ==> s[i] != '\''
  }

  /** A list that is not empty starts with a quote. */
  lemma TagListStartsQuoted(ts: seq<string>)
    requires |ts| >= 1
    ensures var r := PostsRoute.TagList(Some(ts)); |r| >= 1 && r[0] == '\''
  {
    if |ts| >= 2 {
      PostsRoute.TagListStep(ts);
    }
  }

  /** One quoted tag and what follows it. */
  lemma ReadOneTag(tag: string, rest: string)
    requires NoQuote(tag)
    ensures var t := "'" + tag + "'" + rest;
            t != [] && t[0] == '\'' && Until(t[1..], '\'') == |tag| && t[1..][|tag| + 1..] == rest
            && t[1..][..|tag|] == tag
  {
    var t := "'" + tag + "'" + rest;
    assert t[1..] == tag + ['\''] + rest;
    UntilFirst(tag, '\'', rest);
  }

  /** The last tag of a list. */
  lemma ReadLastTag(tag: string, rest: string)
    requires NoQuote(tag)
    requires rest == [] || rest[0] != ','
    ensures ReadTags("'" + tag + "'" + rest) == Some(([tag], rest))
  {
    ReadOneTag(tag, rest);
    assert |rest| < 3 || rest[..3][0] != ',';
    assert ", '"[0] == ',';
  }

  /** A tag followed by `, ` and more tags. */
  lemma ReadTagThenMore(tag: string, more: string)
    requires NoQuote(tag)
    requires more != [] && more[0] == '\''
    ensures var r := ReadTags(more);
            ReadTags("'" + tag + "'" + (", " + more)) == if r.Some? then Some(([tag] + r.value.0, r.value.1)) else None
  {
    var after := ", " + more;
    ReadOneTag(tag, after);
    assert after[..3] == ", '";
    assert after[2..] == more;
  }

  /** The tag list the route writes reads back as the tags, as long as no
      tag contains a quote and neither a quote nor a comma follows the
      list. */
  lemma {:induction false} ReadTagList(ts: seq<string>, rest: string)
    requires forall i :: 0 <= i < |ts| ==> NoQuote(ts[i])
    requires rest == [] || (rest[0] != '\'' && rest[0] != ',')
    ensures ReadTags(PostsRoute.TagList(Some(ts)) + rest) == Some((ts, rest))
    decreases |ts|
  {
    if |ts| == 1 {
      ReadLastTag(ts[0], rest);
      assert [ts[0]] == ts;
    } else if |ts| >= 2 {
      var quoted, tail := "'" + ts[0] + "'", PostsRoute.TagList(Some(ts[1..]));
      var more := tail + rest;
      PostsRoute.TagListStep(ts);
      Regroup(quoted + ", ", tail, rest);
      Regroup(quoted, ", ", more);
      TagListStartsQuoted(ts[1..]);
      ReadTagThenMore(ts[0], more);
      ReadTagList(ts[1..], rest);
      assert [ts[0]] + ts[1..] == ts;
    } else {
      assert PostsRoute.TagList(Some(ts)) + rest == rest;
    }
  }

  // ------------------------------------------------- table of contents

  /** One entry `{"level":…,"text":"…","id":"…"}` and what follows it. */
  function ReadTocEntry(t: string): (r: Option<(WritePage.TocEntry, string)>)
    ensures r.Some? ==> |r.value.1| < |t| && t[0] == '{'
  {
    match Expect(t, "{\"level\":")
    case None => None
    case Some(t1) =>
      match ReadInt(t1)
      case None => None
      case Some((level, t2)) =>
        match Expect(t2, ",\"text\":")
        case None => None
        case Some(t3) =>
          match Json.ReadLiteral(t3)
          case None => None
          case Some((text, t4)) =>
            match Expect(t4, ",\"id\":")
            case None => None
            case Some(t5) =>
              match Json.ReadLiteral(t5)
              case None => None
              case Some((id, t6)) =>
                match Expect(t6, "}")
                case None => None
                case Some(t7) => Some((WritePage.TocEntry(level, text, id), t7))
  }

  /** The entries of an array whose `[` is consumed, through its `]`. */
  function ReadEntries(t: string): (r: Option<(seq<WritePage.TocEntry>, string)>)
    ensures r.Some? ==> t != [] && t[0] == '{'
    decreases |t|
  {
    match ReadTocEntry(t)
    case None => None
    case Some((e, t1)) =>
      if t1 != [] && t1[0] == ',' then
        match ReadEntries(t1[1..])
        case Some((es, rest)) => Some(([e] + es, rest))
        case None => None
      else if t1 != [] && t1[0] == ']' then Some(([e], t1[1..]))
      else None
  }

  /** A JSON array of entries and what follows it. */
  function ReadToc(t: string): (r: Option<(seq<WritePage.TocEntry>, string)>)
  {
    match Expect(t, "[")
    case None => None
    case Some(t1) => if t1 != [] && t1[0] == ']' then Some(([], t1[1..])) else ReadEntries(t1)
  }

  /** The JSON of one entry reads back as the entry. */
  lemma ReadTocEntryJson(e: WritePage.TocEntry, rest: string)
    ensures ReadTocEntry(PostsRoute.TocEntryJson(e) + rest) == Some((e, rest))
  {
    var t6 := "}" + rest;
    var t5 := Json.Quote(e.id) + t6;
    var t4 := ",\"id\":" + t5;
    var t3 := Json.Quote(e.text) + t4;
    var t2 := ",\"text\":" + t3;
    var t1 := IntToString(e.level) + t2;
    TocEntryJsonParts(e, rest);
    ExpectLiteral("{\"level\":", t1);
    ReadIntString(e.level, t2);
    ExpectLiteral(",\"text\":", t3);
    Json.ReadQuoted(e.text, t4);
    ExpectLiteral(",\"id\":", t5);
    Json.ReadQuoted(e.id, t6);
    ExpectLiteral("}", rest);
  }

  /** The entry's JSON regrouped in reading order. */
  lemma TocEntryJsonParts(e: WritePage.TocEntry, rest: string)
    ensures PostsRoute.TocEntryJson(e) + rest
            == "{\"level\":" + (IntToString(e.level) + (",\"text\":" + (Json.Quote(e.text)
               + (",\"id\":" + (Json.Quote(e.id) + ("}" + rest))))))
  {
    var a, b, c, d := "{\"level\":", IntToString(e.level), ",\"text\":", Json.Quote(e.text);
    var e', f, g := ",\"id\":", Json.Quote(e.id), "}";
    Regroup(a + b + c + d + e' + f, g, rest);
    Regroup(a + b + c + d + e', f, g + rest);
    Regroup(a + b + c + d, e', f + (g + rest));
    Regroup(a + b + c, d, e' + (f + (g + rest)));
    Regroup(a + b, c, d + (e' + (f + (g + rest))));
    Regroup(a, b, c + (d + (e' + (f + (g + rest)))));
  }

  /** The last entry, closed by `]`. */
  lemma ReadLastEntry(t: string, e: WritePage.TocEntry, rest: string)
    requires ReadTocEntry(t) == Some((e, "]" + rest))
    ensures ReadEntries(t) == Some(([e], rest))
  {
    assert ("]" + rest)[1..] == rest;
  }

  /** An entry followed by `,` and more entries. */
  lemma ReadEntryThenMore(t: string, e: WritePage.TocEntry, more: string)
    requires ReadTocEntry(t) == Some((e, "," + more))
    ensures var r := ReadEntries(more);
            ReadEntries(t) == if r.Some? then Some(([e] + r.value.0, r.value.1)) else None
  {
    assert ("," + more)[1..] == more;
  }

  /** The text of several entries splits after the first one's `,`. */
  lemma EntriesText(es: seq<WritePage.TocEntry>, rest: string)
    requires |es| >= 2
    ensures Join(PostsRoute.TocItems(es), ",") + "]" + rest
            == PostsRoute.TocEntryJson(es[0]) + ("," + (Join(PostsRoute.TocItems(es[1..]), ",") + "]" + rest))
  {
    var first := PostsRoute.TocEntryJson(es[0]);
    var others := Join(PostsRoute.TocItems(es[1..]), ",");
    assert Join(PostsRoute.TocItems(es), ",") == first + "," + others;
    Regroup(first + "," + others, "]", rest);
    Regroup(first + ",", others, "]" + rest);
    Regroup(first, ",", others + ("]" + rest));
    Regroup(others, "]", rest);
  }

  lemma ReadOneEntry(es: seq<WritePage.TocEntry>, rest: string)
    requires |es| == 1
    ensures ReadEntries(Join(PostsRoute.TocItems(es), ",") + "]" + rest) == Some((es, rest))
  {
    var first := PostsRoute.TocEntryJson(es[0]);
    assert Join(PostsRoute.TocItems(es), ",") == first;
    Regroup(first, "]", rest);
    ReadTocEntryJson(es[0], "]" + rest);
    ReadLastEntry(first + ("]" + rest), es[0], rest);
    assert [es[0]] == es;
  }

  lemma ReadEntriesStep(es: seq<WritePage.TocEntry>, rest: string)
    requires |es| >= 2
    requires ReadEntries(Join(PostsRoute.TocItems(es[1..]), ",") + "]" + rest) == Some((es[1..], rest))
    ensures ReadEntries(Join(PostsRoute.TocItems(es), ",") + "]" + rest) == Some((es, rest))
  {
    var more := Join(PostsRoute.TocItems(es[1..]), ",") + "]" + rest;
    EntriesText(es, rest);
    ReadTocEntryJson(es[0], "," + more);
    ReadEntryThenMore(PostsRoute.TocEntryJson(es[0]) + ("," + more), es[0], more);
    assert [es[0]] + es[1..] == es;
  }

  lemma {:induction false} ReadEntriesJson(es: seq<WritePage.TocEntry>, rest: string)
    requires |es| >= 1
    ensures ReadEntries(Join(PostsRoute.TocItems(es), ",") + "]" + rest) == Some((es, rest))
    decreases |es|
  {
    if |es| == 1 {
      ReadOneEntry(es, rest);
    } else {
      ReadEntriesJson(es[1..], rest);
      ReadEntriesStep(es, rest);
    }
  }

  /** `JSON.stringify(tableOfContents || [])` reads back as the entries,
      none when there were none. */
  lemma ReadTocJson(toc: Option<seq<WritePage.TocEntry>>, rest: string)
    ensures ReadToc(PostsRoute.TocJson(toc) + rest) == Some((toc.GetOr([]), rest))
  {
    var es := toc.GetOr([]);
    var joined := Join(PostsRoute.TocItems(es), ",");
    var inner := joined + ("]" + rest);
    Regroup("[" + joined, "]", rest);
    Regroup("[", joined, "]" + rest);
    Regroup(joined, "]", rest);
    ExpectLiteral("[", inner);
    if es == [] {
      assert inner == "]" + rest;
      assert inner[1..] == rest;
    } else {
      ReadEntriesJson(es, rest);
    }
  }

  // ------------------------------------------------------- whole file

  /** The three quoted lines up to and including `tags: [`. */
  function ReadHead(t: string): (r: Option<(string, string, string, string)>)
  {
    match Expect(t, "---\ntitle: '")
    case None => None
    case Some(t1) =>
      match ReadQuotedLine(t1)
      case None => None
      case Some((title, t2)) =>
        match Expect(t2, "date: '")
        case None => None
        case Some(t3) =>
          match ReadQuotedLine(t3)
          case None => None
          case Some((date, t4)) =>
            match Expect(t4, "excerpt: '")
            case None => None
            case Some(t5) =>
              match ReadQuotedLine(t5)
              case None => None
              case Some((excerpt, t6)) =>
                match Expect(t6, "tags: [")
                case None => None
                case Some(t7) => Some((title, date, excerpt, t7))
  }

  /** The fields after `tags: [`: the tags, the two numbers and the table
      of contents. */
  function ReadFields(t: string): (r: Option<(seq<string>, int, int, seq<WritePage.TocEntry>, string)>)
  {
    match ReadTags(t)
    case None => None
    case Some((tags, t1)) =>
      match Expect(t1, "]\nreadTime: ")
      case None => None
      case Some(t2) =>
        match ReadInt(t2)
        case None => None
        case Some((readTime, t3)) =>
          match Expect(t3, "\nviews: ")
          case None => None
          case Some(t4) =>
            match ReadInt(t4)
            case None => None
            case Some((views, t5)) =>
              match Expect(t5, "\ntableOfContents: ")
              case None => None
              case Some(t6) =>
                match ReadToc(t6)
                case None => None
                case Some((toc, t7)) => Some((tags, readTime, views, toc, t7))
  }

  /** The closing `---` line, a blank line, and the content up to the
      file's final line break. */
  function ReadBody(t: string): (r: Option<string>)
    ensures r.Some? <==> StartsWith(t, "\n---\n\n") && |t| > 6 && t[|t| - 1] == '\n'
    ensures r.Some? ==> t == "\n---\n\n" + r.value + "\n"
  {
    match Expect(t, "\n---\n\n")
    case None => None
    case Some(t1) =>
      if t1 != [] && t1[|t1| - 1] == '\n' then
        assert t1 == t1[..|t1| - 1] + "\n";
        Some(t1[..|t1| - 1])
      else None
  }

  /** A post file as the route writes it, field by field. */
  function ReadPostFile(t: string): (r: Option<PostText>)
  {
    match ReadHead(t)
    case None => None
    case Some((title, date, excerpt, t1)) =>
      match ReadFields(t1)
      case None => None
      case Some((tags, readTime, views, toc, t2)) =>
        match ReadBody(t2)
        case None => None
        case Some(content) => Some(PostText(title, date, excerpt, tags, readTime, views, toc, content))
  }

  /** The head regrouped in reading order. */
  lemma HeadParts(title: string, date: string, excerpt: string, rest: string)
    ensures PostsRoute.Head(title, date, excerpt) + rest
            == "---\ntitle: '" + (title + ("'\n" + ("date: '" + (date + ("'\n" + ("excerpt: '"
               + (excerpt + ("'\n" + ("tags: [" + rest)))))))))
  {
    var a, q, b, c, d := "---\ntitle: '", "'\n", "date: '", "excerpt: '", "tags: [";
    Regroup(a + title + q + b + date + q + c + excerpt + q, d, rest);
    Regroup(a + title + q + b + date + q + c + excerpt, q, d + rest);
    Regroup(a + title + q + b + date + q + c, excerpt, q + (d + rest));
    Regroup(a + title + q + b + date + q, c, excerpt + (q + (d + rest)));
    Regroup(a + title + q + b + date, q, c + (excerpt + (q + (d + rest))));
    Regroup(a + title + q + b, date, q + (c + (excerpt + (q + (d + rest)))));
    Regroup(a + title + q, b, date + (q + (c + (excerpt + (q + (d + rest))))));
    Regroup(a + title, q, b + (date + (q + (c + (excerpt + (q + (d + rest)))))));
    Regroup(a, title, q + (b + (date + (q + (c + (excerpt + (q + (d + rest))))))));
  }

  /** The head reads back as the three values, none of which may break
      its line. */
  lemma ReadHeadOf(title: string, date: string, excerpt: string, rest: string)
    requires NoLineFeed(title) && NoLineFeed(date) && NoLineFeed(excerpt)
    ensures ReadHead(PostsRoute.Head(title, date, excerpt) + rest) == Some((title, date, excerpt, rest))
  {
    var t6 := "tags: [" + rest;
    var t5 := excerpt + ("'\n" + t6);
    var t4 := "excerpt: '" + t5;
    var t3 := date + ("'\n" + t4);
    var t2 := "date: '" + t3;
    var t1 := title + ("'\n" + t2);
    HeadParts(title, date, excerpt, rest);
    ExpectLiteral("---\ntitle: '", t1);
    ReadQuotedLineOf(title, t2);
    ExpectLiteral("date: '", t3);
    ReadQuotedLineOf(date, t4);
    ExpectLiteral("excerpt: '", t5);
    ReadQuotedLineOf(excerpt, t6);
    ExpectLiteral("tags: [", rest);
  }

  /** The fields regrouped in reading order. */
  lemma FieldsParts(tags: Option<seq<string>>, readTime: int, views: int,
                    toc: Option<seq<WritePage.TocEntry>>, rest: string)
    ensures PostsRoute.Fields(tags, readTime, views, toc) + rest
            == PostsRoute.TagList(tags) + ("]\nreadTime: " + (IntToString(readTime) + ("\nviews: "
               + (IntToString(views) + ("\ntableOfContents: " + (PostsRoute.TocJson(toc) + rest))))))
  {
    var a, b, c, d := PostsRoute.TagList(tags), "]\nreadTime: ", IntToString(readTime), "\nviews: ";
    var e, f, g := IntToString(views), "\ntableOfContents: ", PostsRoute.TocJson(toc);
    Regroup(a + b + c + d + e + f, g, rest);
    Regroup(a + b + c + d + e, f, g + rest);
    Regroup(a + b + c + d, e, f + (g + rest));
    Regroup(a + b + c, d, e + (f + (g + rest)));
    Regroup(a + b, c, d + (e + (f + (g + rest))));
    Regroup(a, b, c + (d + (e + (f + (g + rest)))));
  }

  /** The fields read back as written, as long as no tag holds a quote. */
  lemma ReadFieldsOf(tags: Option<seq<string>>, readTime: int, views: int,
                     toc: Option<seq<WritePage.TocEntry>>, rest: string)
    requires forall i :: 0 <= i < |tags.GetOr([])| ==> NoQuote(tags.GetOr([])[i])
    ensures ReadFields(PostsRoute.Fields(tags, readTime, views, toc) + rest)
            == Some((tags.GetOr([]), readTime, views, toc.GetOr([]), rest))
  {
    var t6 := PostsRoute.TocJson(toc) + rest;
    var t5 := "\ntableOfContents: " + t6;
    var t4 := IntToString(views) + t5;
    var t3 := "\nviews: " + t4;
    var t2 := IntToString(readTime) + t3;
    var t1 := "]\nreadTime: " + t2;
    FieldsParts(tags, readTime, views, toc, rest);
    ReadTagsOf(tags, t1);
    ExpectLiteral("]\nreadTime: ", t2);
    ReadIntString(readTime, t3);
    ExpectLiteral("\nviews: ", t4);
    ReadIntString(views, t5);
    ExpectLiteral("\ntableOfContents: ", t6);
    ReadTocJson(toc, rest);
  }

  /** The tags as the route writes them, absent or not, and then `]`. */
  lemma ReadTagsOf(tags: Option<seq<string>>, rest: string)
    requires forall i :: 0 <= i < |tags.GetOr([])| ==> NoQuote(tags.GetOr([])[i])
    requires rest != [] && rest[0] == ']'
    ensures ReadTags(PostsRoute.TagList(tags) + rest) == Some((tags.GetOr([]), rest))
  {
    if tags.Some? && tags.value != [] {
      assert tags.GetOr([]) == tags.value;
      ReadTagList(tags.value, rest);
    } else {
      assert PostsRoute.TagList(tags) + rest == rest;
    }
  }

  /** The body after the fields reads back as the content sent. */
  lemma ReadBodyOf(content: string)
    ensures ReadBody("\n---\n\n" + content + "\n") == Some(content)
  {
    var t := "\n---\n\n" + content + "\n";
    Regroup("\n---\n\n", content, "\n");
    ExpectLiteral("\n---\n\n", content + "\n");
    assert (content + "\n")[..|content|] == content;
  }

  /** The file `POST` writes reads back as every field it was given, with
      the defaults it applies: no tags, one minute of reading, no views, no
      table of contents. The title, the date and the excerpt each have to
      stay on their line and no tag may hold a quote. */
  lemma ReadFileContent(title: string, date: string, excerpt: string, tags: Option<seq<string>>,
                        readTime: Option<int>, toc: Option<seq<WritePage.TocEntry>>, views: Option<int>,
                        content: string)
    requires NoLineFeed(title) && NoLineFeed(date) && NoLineFeed(excerpt)
    requires forall i :: 0 <= i < |tags.GetOr([])| ==> NoQuote(tags.GetOr([])[i])
    ensures ReadPostFile(PostsRoute.FileContent(title, date, excerpt, tags, readTime, toc, views, content))
            == Some(PostText(title, date, excerpt, tags.GetOr([]), PostsRoute.OrDefault(readTime, 1),
                             PostsRoute.OrDefault(views, 0), toc.GetOr([]), content))
  {
    var head := PostsRoute.Head(title, date, excerpt);
    var fields := PostsRoute.Fields(tags, PostsRoute.OrDefault(readTime, 1), PostsRoute.OrDefault(views, 0), toc);
    var body := "\n---\n\n" + content + "\n";
    Regroup(head, fields, body);
    ReadHeadOf(title, date, excerpt, fields + body);
    ReadFieldsOf(tags, PostsRoute.OrDefault(readTime, 1), PostsRoute.OrDefault(views, 0), toc, body);
    ReadBodyOf(content);
  }
}
