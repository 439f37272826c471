/** The post repository of lib/posts.ts. The `_posts` directory is a
    sequence of files in listing order; the front-matter parser of
    gray-matter, its serialiser and the Markdown renderer are arguments, and
    a parsed front matter is a record of keys to values. */
module Posts {
  import opened Wrappers
  import opened JsString
  import Utils
  import StatsStore

  /** A file of the posts directory. */
  datatype PostFile = PostFile(name: string, contents: string)

  /** A front-matter value as YAML parsing produces it; `Other` stands for
      any other value (a list, an object, a date) through the text that
      string concatenation would render it as. */
  datatype Value = Str(s: string) | Num(n: int) | Bool(b: bool) | Null | Other(repr: string)

  /** A plain JavaScript object: keys to values. */
  type Record = map<string, Value>

  /** What gray-matter returns: the front matter and the Markdown body. */
  datatype Matter = Matter(data: Record, content: string)

  /** `fileName.replace(/\.md$/, '')`: one trailing `.md` removed. */
  function PostId(fileName: string): (id: string)
    ensures EndsWith(fileName, ".md") ==> fileName == id + ".md"
    ensures !EndsWith(fileName, ".md") ==> id == fileName
  {
    if EndsWith(fileName, ".md") then fileName[..|fileName| - 3] else fileName
  }

  /** The id of `<id>.md` is `<id>`: file name and id determine each other
      for Markdown files. */
  lemma PostIdOfMarkdownFile(id: string)
    ensures PostId(id + ".md") == id
  {
    assert EndsWith(id + ".md", ".md");
  }

  /** `allStats[id]?.views || 0`: the stored count, with a missing record or
      a count of 0 both giving 0. */
  function JoinedViews(stats: StatsStore.Db, id: string): (n: int)
    ensures id in stats && stats[id].views != 0 ==> n == stats[id].views
    ensures id !in stats || stats[id].views == 0 ==> n == 0
  {
    if id in stats && stats[id].views != 0 then stats[id].views else 0
  }

  /** The listing joins the same count `getPostViews` reports for the id. */
  lemma JoinedViewsAgree(f: StatsStore.StatsFile, id: string)
    ensures JoinedViews(StatsStore.GetAllPostStats(f), id) == StatsStore.GetPostViews(f, id)
  {
  }

  /** `{ id, thumbnail, views, ...data }`: the three computed fields first,
      then every front-matter key, which replaces a computed one of the same
      name. */
  function Spread(id: string, thumbnail: Option<string>, views: int, data: Record): (r: Record)
    ensures r.Keys == {"id", "thumbnail", "views"} + data.Keys
    ensures forall k :: k in data ==> r[k] == data[k]
    ensures "id" !in data ==> r["id"] == Str(id)
    ensures "thumbnail" !in data ==> r["thumbnail"] == (if thumbnail.Some? then Str(thumbnail.value) else Null)
    ensures "views" !in data ==> r["views"] == Num(views)
  {
    var thumb := if thumbnail.Some? then Str(thumbnail.value) else Null;
    map["id" := Str(id), "thumbnail" := thumb, "views" := Num(views)] + data
  }

  /** One listing entry, before sorting. */
  function Entry(file: PostFile, parse: string -> Matter, stats: StatsStore.Db, publicFiles: set<string>): Record
  {
    var id := PostId(file.name);
    var m := parse(file.contents);
    Spread(id, Utils.ExtractThumbnail(m.content, publicFiles), JoinedViews(stats, id), m.data)
  }

  /** The entries of all files, in listing order. */
  function Entries(dir: seq<PostFile>, parse: string -> Matter, stats: StatsStore.Db, publicFiles: set<string>): (es: seq<Record>)
    ensures |es| == |dir|
    ensures forall i :: 0 <= i < |dir| ==> es[i] == Entry(dir[i], parse, stats, publicFiles)
  {
    seq(|dir|, i requires 0 <= i < |dir| => Entry(dir[i], parse, stats, publicFiles))
  }

  /** The sort key `date`; a post without a string date is out of this
      model and gets the empty key. */
  function DateOf(r: Record): string {
    if "date" in r && r["date"].Str? then r["date"].s else ""
  }

  /** No element has a strictly smaller key than one after it. */
  predicate Descending<T>(xs: seq<T>, key: T -> string) {
    forall i, j :: 0 <= i < j < |xs| ==> !LexLess(key(xs[i]), key(xs[j]))
  }

  /** Places `x` before the first element with a strictly smaller key. */
  function Insert<T>(x: T, xs: seq<T>, key: T -> string): (r: seq<T>)
    requires Descending(xs, key)
    ensures multiset(r) == multiset(xs) + multiset{x}
    ensures Descending(r, key)
    decreases |xs|
  {
    if xs == [] then [x]
    else if LexLess(key(xs[0]), key(x)) then
      InsertFront(x, xs, key);
      [x] + xs
    else
      var rest := Insert(x, xs[1..], key);
      InsertBehind(x, xs, rest, key);
      assert xs == [xs[0]] + xs[1..];
      [xs[0]] + rest
  }

  /** The head of a descending list whose key is not below `x`'s can stay in
      front of the list `x` was inserted into. */
  lemma InsertBehind<T>(x: T, xs: seq<T>, rest: seq<T>, key: T -> string)
    requires Descending(xs, key) && xs != [] && !LexLess(key(xs[0]), key(x))
    requires Descending(rest, key) && multiset(rest) == multiset(xs[1..]) + multiset{x}
    ensures Descending([xs[0]] + rest, key)
  {
    var r := [xs[0]] + rest;
    forall j | 0 <= j < |rest|
      ensures !LexLess(key(xs[0]), key(rest[j]))
    {
      assert rest[j] in multiset(rest);
      if rest[j] != x {
        assert rest[j] in multiset(xs[1..]);
        var m :| 0 <= m < |xs[1..]| && xs[1..][m] == rest[j];
        assert xs[m + 1] == rest[j];
      }
    }
    assert forall j :: 0 < j < |r| ==> r[j] == rest[j - 1];
  }

  /** An element with a larger key than the head of a descending list can
      go in front. */
  lemma InsertFront<T>(x: T, xs: seq<T>, key: T -> string)
    requires Descending(xs, key) && xs != [] && LexLess(key(xs[0]), key(x))
    ensures Descending([x] + xs, key)
  {
    forall j | 0 <= j < |xs|
      ensures !LexLess(key(x), key(xs[j]))
    {
      if j > 0 && LexLess(key(x), key(xs[j])) {
        LexTransitive(key(xs[0]), key(x), key(xs[j]));
      }
      if j == 0 {
        LexAsymmetric(key(xs[0]), key(x));
      }
    }
    assert forall j :: 0 < j < |[x] + xs| ==> ([x] + xs)[j] == xs[j - 1];
  }

  /** `sort` with the comparator `key(a) < key(b) ? 1 : -1`. The comparator
      never reports a tie, so elements with equal keys may come in any
      order; this is the order of a stable insertion sort. */
  function SortDescending<T>(xs: seq<T>, key: T -> string): (r: seq<T>)
    ensures multiset(r) == multiset(xs)
    ensures Descending(r, key)
    decreases |xs|
  {
    if xs == [] then []
    else
      assert xs == xs[..|xs| - 1] + [xs[|xs| - 1]];
      Insert(xs[|xs| - 1], SortDescending(xs[..|xs| - 1], key), key)
  }

  /** Newest first by `date`. */
  predicate NewestFirst(rs: seq<Record>) {
    Descending(rs, DateOf)
  }

  /** `getSortedPostsData`: one entry per file, newest first. */
  function GetSortedPostsData(dir: seq<PostFile>, parse: string -> Matter, stats: StatsStore.StatsFile, publicFiles: set<string>): (posts: seq<Record>)
    ensures multiset(posts) == multiset(Entries(dir, parse, StatsStore.GetAllPostStats(stats), publicFiles))
    ensures |posts| == |dir|
    ensures NewestFirst(posts)
  {
    var es := Entries(dir, parse, StatsStore.GetAllPostStats(stats), publicFiles);
    var r := SortDescending(es, DateOf);
    assert |r| == |multiset(r)| == |multiset(es)| == |es|;
    r
  }

  /** Whenever one post's date is strictly later than another's, it is
      listed first. */
  lemma {:induction false} LaterDateListedFirst(posts: seq<Record>, i: nat, j: nat)
    requires NewestFirst(posts) && i < |posts| && j < |posts|
    requires LexLess(DateOf(posts[j]), DateOf(posts[i]))
    ensures i < j
  {
    if j <= i {
      if j == i {
        LexIrreflexive(DateOf(posts[i]));
      }
      assert !LexLess(DateOf(posts[j]), DateOf(posts[i]));
    }
  }

  /** Every file of the directory is listed with its joined entry, and
      every listed entry is one of them. */
  lemma ListingCoversDirectory(dir: seq<PostFile>, parse: string -> Matter, stats: StatsStore.StatsFile, publicFiles: set<string>, k: nat)
    requires k < |dir|
    ensures Entry(dir[k], parse, StatsStore.GetAllPostStats(stats), publicFiles) in GetSortedPostsData(dir, parse, stats, publicFiles)
  {
    var es := Entries(dir, parse, StatsStore.GetAllPostStats(stats), publicFiles);
    assert es[k] in multiset(es);
  }

  /** `getAllPostIds`: the id of every file, in listing order. */
  function GetAllPostIds(dir: seq<PostFile>): (ids: seq<string>)
    ensures |ids| == |dir|
    ensures forall i :: 0 <= i < |dir| ==> ids[i] == PostId(dir[i].name)
  {
    seq(|dir|, i requires 0 <= i < |dir| => PostId(dir[i].name))
  }

  /** The ids carried by a permutation of records whose `k`-th `id` is
      `Str(ids[k])` are exactly the `ids`. */
  lemma PermutedIds(es: seq<Record>, posts: seq<Record>, ids: seq<string>, id: string)
    requires multiset(posts) == multiset(es) && |ids| == |es|
    requires forall k :: 0 <= k < |es| ==> "id" in es[k] && es[k]["id"] == Str(ids[k])
    ensures id in ids <==> exists r :: r in posts && "id" in r && r["id"] == Str(id)
  {
    if id in ids {
      var k :| 0 <= k < |ids| && ids[k] == id;
      assert es[k] in multiset(posts);
    }
    if exists r :: r in posts && "id" in r && r["id"] == Str(id) {
      var r :| r in posts && "id" in r && r["id"] == Str(id);
      assert r in multiset(es);
      var k :| 0 <= k < |es| && es[k] == r;
      assert ids[k] == id;
    }
  }

  /** The routes and the listing agree: unless a front matter carries an
      `id` key of its own, the ids listed are exactly the ids routed. */
  lemma AllPostIdsMatchListing(dir: seq<PostFile>, parse: string -> Matter, stats: StatsStore.StatsFile, publicFiles: set<string>, id: string)
    requires forall k :: 0 <= k < |dir| ==> "id" !in parse(dir[k].contents).data
    ensures id in GetAllPostIds(dir) <==>
            exists r :: r in GetSortedPostsData(dir, parse, stats, publicFiles) && "id" in r && r["id"] == Str(id)
  {
    var db := StatsStore.GetAllPostStats(stats);
    var es := Entries(dir, parse, db, publicFiles);
    var ids := GetAllPostIds(dir);
    forall k | 0 <= k < |es|
      ensures "id" in es[k] && es[k]["id"] == Str(ids[k])
    {
      var m := parse(dir[k].contents);
      assert es[k] == Spread(ids[k], Utils.ExtractThumbnail(m.content, publicFiles), JoinedViews(db, ids[k]), m.data);
    }
    PermutedIds(es, GetSortedPostsData(dir, parse, stats, publicFiles), ids, id);
  }

  /** A front matter that sets `views` hides the store's count in the
      listing; one that does not shows it. */
  lemma ListedViews(file: PostFile, parse: string -> Matter, stats: StatsStore.StatsFile, publicFiles: set<string>)
    ensures var data := parse(file.contents).data;
            var r := Entry(file, parse, StatsStore.GetAllPostStats(stats), publicFiles);
            && ("views" in data ==> r["views"] == data["views"])
            && ("views" !in data ==> r["views"] == Num(StatsStore.GetPostViews(stats, PostId(file.name))))
  {
  }

  /** The contents of the first file called `name`, as `readFileSync` finds
      it. */
  function Lookup(dir: seq<PostFile>, name: string): (r: Option<string>)
    ensures r.None? <==> forall k :: 0 <= k < |dir| ==> dir[k].name != name
    ensures r.Some? ==> exists k :: 0 <= k < |dir| && dir[k] == PostFile(name, r.value)
  {
    if dir == [] then None
    else if dir[0].name == name then Some(dir[0].contents)
    else
      var r := Lookup(dir[1..], name);
      assert r.Some? ==> exists k :: 0 <= k < |dir[1..]| && dir[1..][k] == PostFile(name, r.value);
      r
  }

  /** Of several files called `name`, the first one is read. */
  lemma {:induction false} LookupFirst(dir: seq<PostFile>, name: string, k: nat)
    requires k < |dir| && dir[k].name == name
    requires forall j :: 0 <= j < k ==> dir[j].name != name
    ensures Lookup(dir, name) == Some(dir[k].contents)
    decreases k
  {
    if k > 0 {
      assert dir[1..][k - 1] == dir[k];
      LookupFirst(dir[1..], name, k - 1);
    }
  }

  /** Why a post operation fails: `readFileSync` throws for a missing file,
      `writeFileSync` for a write the file system refuses. */
  datatype PostError = NotFound | WriteFailed

  /** `getPostData(id)`: the body rendered to HTML, the store's count, and
      the front matter spread last. */
  function GetPostData(id: string, dir: seq<PostFile>, parse: string -> Matter, stats: StatsStore.StatsFile, render: string -> string): (r: Result<Record, PostError>)
    ensures Lookup(dir, id + ".md").None? <==> r.Err?
    ensures r.Ok? ==>
              var data := parse(Lookup(dir, id + ".md").value).data;
              && r.value.Keys == {"id", "contentHtml", "views"} + data.Keys
              && (forall k :: k in data ==> r.value[k] == data[k])
              && ("id" !in data ==> r.value["id"] == Str(id))
              && ("contentHtml" !in data ==> r.value["contentHtml"] == Str(render(parse(Lookup(dir, id + ".md").value).content)))
              && ("views" !in data ==> r.value["views"] == Num(StatsStore.GetPostViews(stats, id)))
  {
    match Lookup(dir, id + ".md")
    case None => Err(NotFound)
    case Some(text) =>
      var m := parse(text);
      Ok(map["id" := Str(id), "contentHtml" := Str(render(m.content)), "views" := Num(StatsStore.GetPostViews(stats, id))] + m.data)
  }

  /** Every file called `name` gets `contents`; the others are kept. */
  function Store(dir: seq<PostFile>, name: string, contents: string): (d: seq<PostFile>)
    ensures |d| == |dir|
    ensures forall k :: 0 <= k < |dir| ==> d[k].name == dir[k].name
    ensures forall k :: 0 <= k < |dir| && dir[k].name == name ==> d[k].contents == contents
    ensures forall k :: 0 <= k < |dir| && dir[k].name != name ==> d[k] == dir[k]
  {
    seq(|dir|, k requires 0 <= k < |dir| => if dir[k].name == name then PostFile(name, contents) else dir[k])
  }

  /** `currentViews + 1` where `currentViews` is
      `(data.views as number) || 0`: a missing or falsy value counts as 0,
      a number goes up by one, `true` counts as 1, and any other value is
      concatenated with `"1"` as a string. */
  function BumpViews(v: Option<Value>): (r: Value)
    ensures v.None? || v == Some(Null) || v == Some(Bool(false)) || v == Some(Num(0)) || v == Some(Str("")) ==> r == Num(1)
    ensures v.Some? && v.value.Num? ==> r == Num(v.value.n + 1)
    ensures v == Some(Bool(true)) ==> r == Num(2)
    ensures v.Some? && v.value.Str? && v.value.s != "" ==> r == Str(v.value.s + "1")
    ensures v.Some? && v.value.Other? ==> r == Str(v.value.repr + "1")
  {
    match v
    case None => Num(1)
    case Some(Null) => Num(1)
    case Some(Bool(b)) => if b then Num(2) else Num(1)
    case Some(Num(n)) => Num(n + 1)
    case Some(Str(s)) => if s == "" then Num(1) else Str(s + "1")
    case Some(Other(repr)) => Str(repr + "1")
  }

  /** The legacy `incrementViews(id)`: the file `<id>.md` is rewritten with
      the same body and the same front matter except `views`. A missing
      file makes `readFileSync` throw; `writeOk` says whether the file
      system accepts the write, which otherwise throws. */
  function IncrementViews(id: string, dir: seq<PostFile>, parse: string -> Matter, stringify: (string, Record) -> string, writeOk: bool): (r: Result<seq<PostFile>, PostError>)
    ensures Lookup(dir, id + ".md").None? ==> r == Err(NotFound)
    ensures Lookup(dir, id + ".md").Some? && !writeOk ==> r == Err(WriteFailed)
    ensures r.Ok? <==> Lookup(dir, id + ".md").Some? && writeOk
    ensures r.Ok? ==>
              var m := parse(Lookup(dir, id + ".md").value);
              var current := if "views" in m.data then Some(m.data["views"]) else None;
              var data' := m.data["views" := BumpViews(current)];
              && data'.Keys == m.data.Keys + {"views"}
              && (forall k :: k in m.data && k != "views" ==> data'[k] == m.data[k])
              && r.value == Store(dir, id + ".md", stringify(m.content, data'))
  {
    match Lookup(dir, id + ".md")
    case None => Err(NotFound)
    case Some(text) =>
      var m := parse(text);
      var current := if "views" in m.data then Some(m.data["views"]) else None;
      if !writeOk then Err(WriteFailed) else
      Ok(Store(dir, id + ".md", stringify(m.content, m.data["views" := BumpViews(current)])))
  }

  /** A stored file reads back as stored. */
  lemma {:induction false} LookupStore(dir: seq<PostFile>, name: string, contents: string)
    requires Lookup(dir, name).Some?
    ensures Lookup(Store(dir, name, contents), name) == Some(contents)
    decreases |dir|
  {
    var d := Store(dir, name, contents);
    if dir[0].name != name {
      assert Store(dir[1..], name, contents) == d[1..];
      LookupStore(dir[1..], name, contents);
    }
  }

  /** After the legacy increment the file reads back with the new count and
      the same body, provided the serialiser and parser round-trip. */
  lemma IncrementViewsReadBack(id: string, dir: seq<PostFile>, parse: string -> Matter, stringify: (string, Record) -> string, n: int)
    requires forall body, data :: parse(stringify(body, data)) == Matter(data, body)
    requires Lookup(dir, id + ".md").Some?
    requires var m := parse(Lookup(dir, id + ".md").value); "views" in m.data && m.data["views"] == Num(n)
    ensures IncrementViews(id, dir, parse, stringify, true).Ok?
    ensures var m := parse(Lookup(dir, id + ".md").value);
            var d' := IncrementViews(id, dir, parse, stringify, true).value;
            Lookup(d', id + ".md") == Some(stringify(m.content, m.data["views" := Num(n + 1)]))
            && parse(Lookup(d', id + ".md").value) == Matter(m.data["views" := Num(n + 1)], m.content)
  {
    var m := parse(Lookup(dir, id + ".md").value);
    var text := stringify(m.content, m.data["views" := Num(n + 1)]);
    assert BumpViews(Some(m.data["views"])) == Num(n + 1);
    assert IncrementViews(id, dir, parse, stringify, true) == Ok(Store(dir, id + ".md", text));
    LookupStore(dir, id + ".md", text);
  }
}
