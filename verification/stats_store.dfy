/** The view-count store of lib/database.ts: one JSON document
    `{ posts: { <post id>: { views, lastViewed? } } }` that is read whole,
    changed in memory and written back whole on every increment.
    The backing file is a value of `StatsFile`; the clock is an argument
    and the outcome of the file write is an argument `writeOk`. */
module StatsStore {
  import opened Wrappers

  /** One post's record. */
  datatype PostStats = PostStats(views: int, lastViewed: Option<string>)

  /** The `posts` object of the document. */
  type Db = map<string, PostStats>

  /** What the backing file holds: nothing, something that cannot be read
      or parsed as JSON, or a parsed document. */
  datatype StatsFile = Missing | Unreadable | Stored(posts: Db)

  /** `readDatabase`: a missing or broken file reads as an empty store,
      never as an error. */
  function ReadDatabase(f: StatsFile): (db: Db)
    ensures f.Stored? ==> db == f.posts
    ensures !f.Stored? ==> db == map[]
  {
    match f
    case Stored(posts) => posts
    case _ => map[]
  }

  /** `writeDatabase`: the file holds the whole new document when the write
      succeeds and is left as it was when the write fails; the failure is
      swallowed. */
  function WriteDatabase(f: StatsFile, db: Db, writeOk: bool): (f': StatsFile)
    ensures writeOk ==> ReadDatabase(f') == db
    ensures !writeOk ==> f' == f
  {
    if writeOk then Stored(db) else f
  }

  /** `getPostViews`: the stored count, 0 for an id without a record. */
  function GetPostViews(f: StatsFile, id: string): (n: int)
    ensures id in ReadDatabase(f) ==> n == ReadDatabase(f)[id].views
    ensures id !in ReadDatabase(f) ==> n == 0
  {
    var db := ReadDatabase(f);
    // `db.posts[id]?.views || 0`: a count of 0 is falsy and is replaced by 0
    if id in db && db[id].views != 0 then db[id].views else 0
  }

  /** The result of `incrementPostViews`: the file afterwards and the count
      the call returns. */
  datatype Increment = Increment(file: StatsFile, views: int)

  /** `incrementPostViews(id)` at time `now`: a record `{views: 0}` is
      created when absent, its count goes up by one, `lastViewed` becomes
      `now`, the whole document is written back, and the new count is
      returned even if the write fails. */
  function IncrementPostViews(f: StatsFile, id: string, now: string, writeOk: bool): (r: Increment)
    ensures r.views == GetPostViews(f, id) + 1
    ensures writeOk ==> r.file.Stored?
    ensures writeOk ==> r.file.posts.Keys == ReadDatabase(f).Keys + {id}
    ensures writeOk ==> r.file.posts[id] == PostStats(r.views, Some(now))
    ensures writeOk ==> forall other :: other in ReadDatabase(f) && other != id ==>
                          r.file.posts[other] == ReadDatabase(f)[other]
    ensures !writeOk ==> r.file == f
  {
    var db := ReadDatabase(f);
    var prev := if id in db then db[id] else PostStats(0, None);
    var updated := PostStats(prev.views + 1, Some(now));
    var db' := db[id := updated];
    Increment(WriteDatabase(f, db', writeOk), updated.views)
  }

  /** `getAllPostStats`: the stored `posts` object, or an empty one. */
  function GetAllPostStats(f: StatsFile): (db: Db)
    ensures forall id :: id in db ==> GetPostViews(f, id) == db[id].views
    ensures forall id :: id !in db ==> GetPostViews(f, id) == 0
    ensures f.Stored? ==> db == f.posts
  {
    ReadDatabase(f)
  }

  /** A store that has never been written, or whose file is broken, reports
      0 views for every id. */
  lemma FreshStoreReadsZero(f: StatsFile, id: string)
    requires !f.Stored?
    ensures GetPostViews(f, id) == 0
    ensures GetAllPostStats(f) == map[]
  {
  }

  /** After a successful increment, reading the same id gives back exactly
      what the increment returned; other ids read as before. */
  lemma IncrementThenRead(f: StatsFile, id: string, now: string, other: string)
    ensures var r := IncrementPostViews(f, id, now, true);
            GetPostViews(r.file, id) == r.views
            && (other != id ==> GetPostViews(r.file, other) == GetPostViews(f, other))
  {
  }

  /** The counts of `n` increments in a row on one id, each with its own
      write outcome: the file after all of them. */
  function IncrementMany(f: StatsFile, id: string, now: string, oks: seq<bool>): StatsFile
    decreases |oks|
  {
    if oks == [] then f
    else IncrementMany(IncrementPostViews(f, id, now, oks[0]).file, id, now, oks[1..])
  }

  function CountTrue(oks: seq<bool>): nat {
    if oks == [] then 0 else (if oks[0] then 1 else 0) + CountTrue(oks[1..])
  }

  /** Sequential increments lose exactly the ones whose write failed: the
      stored count grows by the number of successful writes, so it never
      decreases and reaches `n` after `n` successful views. */
  lemma {:induction false} IncrementManyCount(f: StatsFile, id: string, now: string, oks: seq<bool>)
    ensures GetPostViews(IncrementMany(f, id, now, oks), id) == GetPostViews(f, id) + CountTrue(oks)
    decreases |oks|
  {
    if oks != [] {
      var f1 := IncrementPostViews(f, id, now, oks[0]).file;
      assert GetPostViews(f1, id) == GetPostViews(f, id) + (if oks[0] then 1 else 0);
      IncrementManyCount(f1, id, now, oks[1..]);
    }
  }
}
