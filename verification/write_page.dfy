/** The pure helpers of the authoring page src/app/admin/write/page.tsx:
    the tag list, image insertion, read-time estimate, table of contents
    with anchor ids, and the slug suggested from a title. */
module WritePage {
  import opened Wrappers
  import opened JsString
  import Utils

  // ---------------------------------------------------------------- tags

  predicate NoDuplicates(tags: seq<string>) {
    forall i, j :: 0 <= i < j < |tags| ==> tags[i] != tags[j]
  }

  /** `addTag`: the trimmed tag is appended unless it is empty or already
      listed. */
  function AddTag(tags: seq<string>, tag: string): (r: seq<string>)
    ensures Trim(tag) != "" && Trim(tag) !in tags ==> r == tags + [Trim(tag)]
    ensures Trim(tag) == "" || Trim(tag) in tags ==> r == tags
    ensures NoDuplicates(tags) ==> NoDuplicates(r)
    ensures forall x :: x in r ==> x in tags || x == Trim(tag)
  {
    var trimmed := Trim(tag);
    if trimmed != "" && trimmed !in tags then tags + [trimmed] else tags
  }

  /** `removeTag`: every occurrence of the tag goes; every other tag keeps
      its number of occurrences (and, by `RemoveTagAppend`, its order). */
  function RemoveTag(tags: seq<string>, tag: string): (r: seq<string>)
    ensures tag !in r
    ensures forall x :: x != tag ==> multiset(r)[x] == multiset(tags)[x]
    ensures tag !in tags ==> r == tags
  {
    if tags == [] then []
    else
      var rest := RemoveTag(tags[1..], tag);
      assert tags == [tags[0]] + tags[1..];
      if tags[0] == tag then rest else [tags[0]] + rest
  }

  lemma {:induction false} RemoveTagAppend(a: seq<string>, b: seq<string>, tag: string)
    ensures RemoveTag(a + b, tag) == RemoveTag(a, tag) + RemoveTag(b, tag)
    decreases |a|
  {
    if a == [] {
      assert a + b == b;
    } else {
      assert (a + b)[1..] == a[1..] + b;
      assert (a + b)[0] == a[0];
      RemoveTagAppend(a[1..], b, tag);
    }
  }

  /** Removing a tag just added gives back the list it was added to. */
  lemma AddThenRemove(tags: seq<string>, tag: string)
    requires Trim(tag) !in tags
    ensures RemoveTag(AddTag(tags, tag), Trim(tag)) == tags
  {
    var t := Trim(tag);
    if t != "" {
      RemoveTagAppend(tags, [t], t);
      assert RemoveTag([t], t) == RemoveTag([], t);
    }
  }

  // ------------------------------------------------------------- images

  /** `insertImageToMarkdown`: the content followed by a blank line, the
      reference `![alt](url)` and another blank line. */
  function InsertImage(content: string, url: string, alt: string): (r: string)
    ensures StartsWith(r, content)
    ensures |r| == |content| + |alt| + |url| + 9
  {
    content + "\n\n![" + alt + "](" + url + ")\n\n"
  }

  /** Alt text that cannot end the alt group early or leave the line. */
  predicate PlainAlt(alt: string) {
    && (forall i :: 0 <= i < |alt| ==> !IsLineTerminator(alt[i]))
    && (forall i :: 0 <= i < |alt| - 1 ==> !(alt[i] == ']' && alt[i + 1] == '('))
  }

  /** A url that cannot end the target group early or leave the line. */
  predicate PlainUrl(url: string) {
    forall i :: 0 <= i < |url| ==> !IsLineTerminator(url[i]) && url[i] != ')'
  }

  /** An image inserted into content that had none becomes the content's
      first image, and its url is the thumbnail the post listing derives
      (given the file exists, for a site path). */
  lemma InsertedImageIsThumbnail(content: string, url: string, alt: string, publicFiles: set<string>)
    requires Utils.FirstImage(content).None?
    requires PlainAlt(alt) && PlainUrl(url) && url != ""
    requires StartsWith(url, "http") || (StartsWith(url, "/") && url in publicFiles)
    ensures Utils.ExtractThumbnail(InsertImage(content, url, alt), publicFiles) == Some(url)
  {
    var s := InsertImage(content, url, alt);
    var p := |content|;
    var at, mid, end := p + 2, p + 4 + |alt|, p + 6 + |alt| + |url|;
    InsertedImageIsFirst(content, url, alt);
    var m := Utils.FirstImage(s).value;
    assert m == Utils.ImageMatch(at, mid, end);
    assert Utils.Target(s, m) == url;
  }

  /** Where the parts of an inserted image sit in the new content. */
  lemma InsertedImageLayout(content: string, url: string, alt: string)
    ensures var s, p := InsertImage(content, url, alt), |content|;
            var at, mid, end := p + 2, p + 4 + |alt|, p + 6 + |alt| + |url|;
            && |s| == end + 3 && s[..p] == content
            && s[p] == '\n' && s[p + 1] == '\n' && s[at] == '!' && s[at + 1] == '['
            && (forall i :: 0 <= i < |alt| ==> s[at + 2 + i] == alt[i])
            && s[mid] == ']' && s[mid + 1] == '('
            && s[mid + 2..end] == url
            && s[end] == ')' && s[end + 1] == '\n' && s[end + 2] == '\n'
  {
    var s := InsertImage(content, url, alt);
    assert s == content + ['\n', '\n', '!', '['] + alt + [']', '('] + url + [')', '\n', '\n'];
  }

  /** The inserted image is the first image reference of the new content. */
  lemma InsertedImageIsFirst(content: string, url: string, alt: string)
    requires Utils.FirstImage(content).None?
    requires PlainAlt(alt) && PlainUrl(url)
    ensures var p := |content|;
            Utils.FirstImageRef(InsertImage(content, url, alt), p + 2, p + 4 + |alt|, p + 6 + |alt| + |url|)
  {
    var s := InsertImage(content, url, alt);
    var p := |content|;
    var at, mid, end := p + 2, p + 4 + |alt|, p + 6 + |alt| + |url|;
    InsertedImageLayout(content, url, alt);
    assert forall i :: 0 <= i < |url| ==> s[mid + 2 + i] == url[i];
    assert Utils.ImageRef(s, at, mid, end);
    forall at', mid', end' | Utils.ImageRef(s, at', mid', end')
      ensures at < at' || (at == at' && (mid < mid' || (mid == mid' && end <= end')))
    {
      InsertedImageBeatsOthers(content, url, alt, at', mid', end');
    }
  }

  /** Any image reference of the new content starts after the inserted
      one, or at it with its alt text and target no shorter. */
  lemma InsertedImageBeatsOthers(content: string, url: string, alt: string, at': int, mid': int, end': int)
    requires Utils.FirstImage(content).None?
    requires PlainAlt(alt) && PlainUrl(url)
    requires Utils.ImageRef(InsertImage(content, url, alt), at', mid', end')
    ensures var p := |content|;
            var at, mid, end := p + 2, p + 4 + |alt|, p + 6 + |alt| + |url|;
            at < at' || (at == at' && (mid < mid' || (mid == mid' && end <= end')))
  {
    var s := InsertImage(content, url, alt);
    var p := |content|;
    var at, mid, end := p + 2, p + 4 + |alt|, p + 6 + |alt| + |url|;
    InsertedImageLayout(content, url, alt);
    if at' < p {
      assert end' < p;
      Utils.ImageRefInPrefix(s, p, at', mid', end');
      assert false;
    }
  }

  // ---------------------------------------------------------- read time

  /** The Markdown markup `[#*`]` that the read-time estimate and the
      excerpt both drop. */
  const MarkdownMarks: set<char> := {'#', '*', '`'}

  /** Characters the read-time estimate counts: markup removed, then
      trimmed. */
  function ReadableLength(content: string): nat {
    |Trim(Strip(content, MarkdownMarks))|
  }

  /** `calculateReadTime`: minutes at 300 characters per minute, rounded
      up, and never less than one. */
  function CalculateReadTime(content: string): (minutes: int)
    ensures minutes >= 1
    ensures minutes == 1 <==> ReadableLength(content) <= 300
    ensures ReadableLength(content) > 0 ==>
              300 * (minutes - 1) < ReadableLength(content) <= 300 * minutes
  {
    var n := ReadableLength(content);
    var rounded := (n + 299) / 300;
    if rounded < 1 then 1 else rounded
  }

  // -------------------------------------------------- table of contents

  datatype TocEntry = TocEntry(level: int, text: string, id: string)

  /** Position `p` is where multiline `^` matches. */
  predicate LineStart(s: string, p: int) {
    0 <= p <= |s| && (p == 0 || IsLineTerminator(s[p - 1]))
  }

  /** Length of the run of `#` starting at `p`. */
  function HashRun(s: string, p: nat): (n: nat)
    requires p <= |s|
    ensures p + n <= |s|
    ensures p + n == |s| || s[p + n] != '#'
    decreases |s| - p
  {
    if p < |s| && s[p] == '#' then 1 + HashRun(s, p + 1) else 0
  }

  lemma {:induction false} HashRunHashes(s: string, p: nat)
    requires p <= |s|
    ensures forall i :: p <= i < p + HashRun(s, p) ==> s[i] == '#'
    decreases |s| - p
  {
    if p < |s| && s[p] == '#' {
      HashRunHashes(s, p + 1);
    }
  }

  /** The end of the line through `from`: the first line terminator at or
      after it, or the end of the text. */
  function LineEnd(s: string, from: nat): (e: nat)
    requires from <= |s|
    ensures from <= e <= |s|
    ensures e == |s| || IsLineTerminator(s[e])
    decreases |s| - from
  {
    if from == |s| || IsLineTerminator(s[from]) then from else LineEnd(s, from + 1)
  }

  lemma {:induction false} LineEndNoBreak(s: string, from: nat)
    requires from <= |s|
    ensures NoLineBreak(s, from, LineEnd(s, from))
    decreases |s| - from
  {
    if from < |s| && !IsLineTerminator(s[from]) {
      LineEndNoBreak(s, from + 1);
    }
  }

  /** The last position in `[lo, hi)` that is not a line terminator. */
  function LastOnLine(s: string, lo: nat, hi: nat): (r: Option<nat>)
    requires lo <= hi <= |s|
    ensures r.Some? ==> lo <= r.value < hi && !IsLineTerminator(s[r.value])
    decreases hi - lo
  {
    if lo == hi then None
    else if !IsLineTerminator(s[hi - 1]) then Some(hi - 1)
    else LastOnLine(s, lo, hi - 1)
  }

  /** `LastOnLine` finds a position at or after any position in range
      that is not a line terminator. */
  lemma {:induction false} LastOnLineAtLeast(s: string, lo: nat, hi: nat, t: nat)
    requires lo <= t < hi <= |s| && !IsLineTerminator(s[t])
    ensures LastOnLine(s, lo, hi).Some? && t <= LastOnLine(s, lo, hi).value
    decreases hi - lo
  {
    if t < hi - 1 && IsLineTerminator(s[hi - 1]) {
      LastOnLineAtLeast(s, lo, hi - 1, t);
    }
  }

  /** One way `/^(#{1,6})\s+(.+)$/m` can match at line start `p`: `level`
      hashes, whitespace (line breaks included) up to `t`, then the heading
      text `s[t..e]` running to the end of its line. */
  predicate HeadingMatch(s: string, p: int, level: int, t: int, e: int) {
    && LineStart(s, p)
    && 1 <= level <= 6 && p + level < t < e <= |s|
    && (forall i :: p <= i < p + level ==> s[i] == '#')
    && (forall i :: p + level <= i < t ==> IsWhitespace(s[i]))
    && NoLineBreak(s, t, e)
    && (e == |s| || IsLineTerminator(s[e]))
  }

  /** A heading the scan found: where it starts, its level, the raw text of
      group 2 and where the match ends. */
  datatype Heading = Heading(start: nat, level: nat, textStart: nat, end: nat)

  /** Length of the whitespace run starting at `p`. */
  function WhitespaceRun(s: string, p: nat): (n: nat)
    requires p <= |s|
    ensures p + n <= |s|
    ensures p + n == |s| || !IsWhitespace(s[p + n])
    decreases |s| - p
  {
    if p < |s| && IsWhitespace(s[p]) then 1 + WhitespaceRun(s, p + 1) else 0
  }

  lemma {:induction false} WhitespaceRunSpaces(s: string, p: nat)
    requires p <= |s|
    ensures forall i :: p <= i < p + WhitespaceRun(s, p) ==> IsWhitespace(s[i])
    decreases |s| - p
  {
    if p < |s| && IsWhitespace(s[p]) {
      WhitespaceRunSpaces(s, p + 1);
    }
  }

  /** What every way of matching at `p` has in common: the level is the
      whole hash run, the text starts within the whitespace run after it,
      on a character that is not a line terminator, and runs to the end of
      that character's line. */
  lemma HeadingShape(s: string, p: int, level: int, t: int, e: int)
    requires HeadingMatch(s, p, level, t, e)
    ensures level == HashRun(s, p)
    ensures t <= p + level + WhitespaceRun(s, p + level)
    ensures !IsLineTerminator(s[t])
    ensures e == LineEnd(s, t)
  {
    HashRunHashes(s, p);
    assert IsWhitespace(s[p + level]);
    LineEndNoBreak(s, t);
  }

  /** The attempt at line start `p`. `#{1,6}` must take the whole hash run;
      the greedy `\s+` gives back characters until `.+` can start on a
      character that is not a line terminator, so the text starts at the
      last such position within the whitespace run, and the greedy `.+`
      runs to the end of that line. */
  function HeadingAt(s: string, p: nat): (r: Option<Heading>)
    requires LineStart(s, p)
    ensures r.Some? ==> r.value.start == p && 1 <= r.value.level <= 6 && r.value.level == HashRun(s, p)
    ensures r.Some? ==> p + r.value.level < r.value.textStart < r.value.end <= |s|
    ensures r.Some? && r.value.end < |s| ==> IsLineTerminator(s[r.value.end])
  {
    var h := HashRun(s, p);
    var q := p + h;
    if 1 <= h <= 6 && q < |s| && IsWhitespace(s[q]) then
      var hi := if q + WhitespaceRun(s, q) < |s| then q + WhitespaceRun(s, q) + 1 else |s|;
      match LastOnLine(s, q + 1, hi)
      case None => None
      case Some(t) => Some(Heading(p, h, t, LineEnd(s, t)))
    else
      None
  }

  /** What `HeadingAt` reports is a way the regular expression matches. */
  lemma HeadingAtSound(s: string, p: nat)
    requires LineStart(s, p) && HeadingAt(s, p).Some?
    ensures var h := HeadingAt(s, p).value;
            HeadingMatch(s, p, h.level, h.textStart, h.end)
  {
    var h := HeadingAt(s, p).value;
    var q := p + h.level;
    HashRunHashes(s, p);
    WhitespaceRunSpaces(s, q);
    LineEndNoBreak(s, h.textStart);
    assert h.textStart <= q + WhitespaceRun(s, q);
  }

  /** Of all the ways to match at `p`, `HeadingAt` reports the one the
      backtracking search tries first: the longest whitespace run. */
  lemma HeadingAtGreedy(s: string, p: nat, level: int, t: int, e: int)
    requires LineStart(s, p) && HeadingMatch(s, p, level, t, e)
    ensures HeadingAt(s, p).Some?
    ensures var h := HeadingAt(s, p).value;
            level == h.level && t <= h.textStart && (t == h.textStart ==> e == h.end)
  {
    HeadingShape(s, p, level, t, e);
    assert IsWhitespace(s[p + level]);
    HeadingAtReaches(s, p, t);
  }

  /** The attempt at `p` succeeds whenever some position `t` within the
      whitespace run after the hashes holds a character other than a line
      terminator, and its text starts at or after `t`. */
  lemma HeadingAtReaches(s: string, p: nat, t: nat)
    requires LineStart(s, p) && 1 <= HashRun(s, p) <= 6
    requires p + HashRun(s, p) < |s| && IsWhitespace(s[p + HashRun(s, p)])
    requires p + HashRun(s, p) < t <= p + HashRun(s, p) + WhitespaceRun(s, p + HashRun(s, p))
    requires t < |s| && !IsLineTerminator(s[t])
    ensures HeadingAt(s, p).Some?
    ensures var h := HeadingAt(s, p).value;
            t <= h.textStart && h.end == LineEnd(s, h.textStart)
  {
    var q := p + HashRun(s, p);
    var w := WhitespaceRun(s, q);
    var hi := if q + w < |s| then q + w + 1 else |s|;
    LastOnLineAtLeast(s, q + 1, hi, t);
  }

  /** `HeadingAt` reports nothing exactly when the regular expression cannot
      match at `p`. */
  lemma HeadingAtComplete(s: string, p: nat)
    requires LineStart(s, p)
    ensures HeadingAt(s, p).None? <==> forall level, t, e :: !HeadingMatch(s, p, level, t, e)
  {
    if HeadingAt(s, p).Some? {
      HeadingAtSound(s, p);
    } else {
      forall level, t, e | HeadingMatch(s, p, level, t, e)
        ensures false
      {
        HeadingAtGreedy(s, p, level, t, e);
      }
    }
  }

  /** Where a reported heading lies in the text. */
  predicate WellPlaced(s: string, h: Heading) {
    1 <= h.level <= 6 && h.start + h.level < h.textStart < h.end <= |s|
  }

  /** The outcomes of the attempts at every position of a text: `at[k]` is
      the heading matched at `k`, where the attempt succeeds. */
  predicate Coherent(s: string, at: seq<Option<Heading>>) {
    && |at| == |s| + 1
    && forall k :: 0 <= k < |at| && at[k].Some? ==>
         && at[k].value.start == k && WellPlaced(s, at[k].value)
         && (at[k].value.end < |s| ==> IsLineTerminator(s[at[k].value.end]))
  }

  /** The attempt at every line start of `s`. */
  function Attempts(s: string): (at: seq<Option<Heading>>)
    ensures Coherent(s, at)
    ensures forall k :: 0 <= k <= |s| && LineStart(s, k) ==> at[k] == HeadingAt(s, k)
  {
    seq(|s| + 1, k requires 0 <= k <= |s| => if LineStart(s, k) then HeadingAt(s, k) else None)
  }

  /** The headings `exec` finds from line start `p` on: after a match the
      search resumes at the next line; after a failed attempt it moves on
      to the next line start. */
  function Scan(s: string, at: seq<Option<Heading>>, p: nat): (hs: seq<Heading>)
    requires Coherent(s, at) && LineStart(s, p)
    ensures forall i :: 0 <= i < |hs| ==> p <= hs[i].start && WellPlaced(s, hs[i])
    decreases |s| - p
  {
    match at[p]
    case Some(h) =>
      if h.end < |s| then
        var rest := Scan(s, at, h.end + 1);
        var found := [h] + rest;
        assert forall i :: 0 < i < |found| ==> found[i] == rest[i - 1];
        found
      else [h]
    case None =>
      var e := LineEnd(s, p);
      if e < |s| then Scan(s, at, e + 1) else []
  }

  /** The headings come in document order, each match ending before the
      next one starts. */
  lemma {:induction false} ScanOrdered(s: string, at: seq<Option<Heading>>, p: nat)
    requires Coherent(s, at) && LineStart(s, p)
    ensures forall i, j :: 0 <= i < j < |Scan(s, at, p)| ==> Scan(s, at, p)[i].end < Scan(s, at, p)[j].start
    decreases |s| - p
  {
    if at[p].Some? && at[p].value.end < |s| {
      var h := at[p].value;
      ScanAfterMatch(s, at, p);
      ScanOrdered(s, at, h.end + 1);
      var hs, rest := Scan(s, at, p), Scan(s, at, h.end + 1);
      assert forall i :: 0 < i < |hs| ==> hs[i] == rest[i - 1];
    } else if at[p].None? && LineEnd(s, p) < |s| {
      ScanAfterMiss(s, at, p);
      ScanOrdered(s, at, LineEnd(s, p) + 1);
    }
  }

  /** Every heading the scan reports is the successful attempt at its own
      line start. */
  lemma {:induction false} ScanSound(s: string, at: seq<Option<Heading>>, p: nat, i: nat)
    requires Coherent(s, at) && LineStart(s, p) && i < |Scan(s, at, p)|
    ensures LineStart(s, Scan(s, at, p)[i].start)
    ensures at[Scan(s, at, p)[i].start] == Some(Scan(s, at, p)[i])
    decreases |s| - p, 1
  {
    if at[p].None? {
      ScanSoundAfterMiss(s, at, p, i);
    } else if i > 0 {
      ScanSoundAfterMatch(s, at, p, i);
    } else {
      assert Scan(s, at, p)[0] == at[p].value && at[p].value.start == p;
    }
  }

  lemma {:induction false} ScanSoundAfterMatch(s: string, at: seq<Option<Heading>>, p: nat, i: nat)
    requires Coherent(s, at) && LineStart(s, p) && i < |Scan(s, at, p)|
    requires at[p].Some? && i > 0
    ensures LineStart(s, Scan(s, at, p)[i].start)
    ensures at[Scan(s, at, p)[i].start] == Some(Scan(s, at, p)[i])
    decreases |s| - p, 0
  {
    var h := at[p].value;
    assert h.end < |s|;
    ScanAfterMatch(s, at, p);
    ScanSound(s, at, h.end + 1, i - 1);
    assert Scan(s, at, p)[i] == Scan(s, at, h.end + 1)[i - 1];
  }

  lemma {:induction false} ScanSoundAfterMiss(s: string, at: seq<Option<Heading>>, p: nat, i: nat)
    requires Coherent(s, at) && LineStart(s, p) && i < |Scan(s, at, p)|
    requires at[p].None?
    ensures LineStart(s, Scan(s, at, p)[i].start)
    ensures at[Scan(s, at, p)[i].start] == Some(Scan(s, at, p)[i])
    decreases |s| - p, 0
  {
    assert LineEnd(s, p) < |s|;
    ScanAfterMiss(s, at, p);
    ScanSound(s, at, LineEnd(s, p) + 1, i);
  }


  /** After a match that ends before the end of the text, the scan goes on
      at the start of the next line. */
  lemma ScanAfterMatch(s: string, at: seq<Option<Heading>>, p: nat)
    requires Coherent(s, at) && LineStart(s, p) && at[p].Some? && at[p].value.end < |s|
    ensures LineStart(s, at[p].value.end + 1)
    ensures Scan(s, at, p) == [at[p].value] + Scan(s, at, at[p].value.end + 1)
  {
  }

  /** After a failed attempt on a line that is not the last, the scan goes
      on at the start of the next line. */
  lemma ScanAfterMiss(s: string, at: seq<Option<Heading>>, p: nat)
    requires Coherent(s, at) && LineStart(s, p) && at[p].None? && LineEnd(s, p) < |s|
    ensures LineStart(s, LineEnd(s, p) + 1)
    ensures Scan(s, at, p) == Scan(s, at, LineEnd(s, p) + 1)
  {
  }

  /** Every line start at or after `p` where the attempt succeeds lies
      within a reported heading: it is reported itself, or its line is part
      of the match of a heading before it (a heading text may begin on a
      later line, after a run of blank lines). */
  lemma {:induction false} ScanComplete(s: string, at: seq<Option<Heading>>, p: nat, q: nat) returns (i: nat)
    requires Coherent(s, at) && LineStart(s, p) && LineStart(s, q) && p <= q
    requires at[q].Some?
    ensures i < |Scan(s, at, p)| && Scan(s, at, p)[i].start <= q <= Scan(s, at, p)[i].end
    decreases |s| - p, 1
  {
    if at[p].None? {
      i := ScanCompleteAfterMiss(s, at, p, q);
    } else if q > at[p].value.end {
      i := ScanCompleteAfterMatch(s, at, p, q);
    } else {
      assert Scan(s, at, p)[0] == at[p].value;
      i := 0;
    }
  }

  /** `q` lies beyond the heading matched at `p`: it is found further on. */
  lemma {:induction false} ScanCompleteAfterMatch(s: string, at: seq<Option<Heading>>, p: nat, q: nat) returns (i: nat)
    requires Coherent(s, at) && LineStart(s, p) && LineStart(s, q) && p <= q
    requires at[q].Some? && at[p].Some? && q > at[p].value.end
    ensures i < |Scan(s, at, p)| && Scan(s, at, p)[i].start <= q <= Scan(s, at, p)[i].end
    decreases |s| - p, 0
  {
    var h := at[p].value;
    ScanAfterMatch(s, at, p);
    var k := ScanComplete(s, at, h.end + 1, q);
    var rest := Scan(s, at, h.end + 1);
    assert Scan(s, at, p)[k + 1] == rest[k];
    i := k + 1;
  }

  /** The attempt at `p` failed, so `q` lies on a later line. */
  lemma {:induction false} ScanCompleteAfterMiss(s: string, at: seq<Option<Heading>>, p: nat, q: nat) returns (i: nat)
    requires Coherent(s, at) && LineStart(s, p) && LineStart(s, q) && p <= q
    requires at[q].Some? && at[p].None?
    ensures i < |Scan(s, at, p)| && Scan(s, at, p)[i].start <= q <= Scan(s, at, p)[i].end
    decreases |s| - p, 0
  {
    LineEndNoBreak(s, p);
    assert IsLineTerminator(s[q - 1]);
    ScanAfterMiss(s, at, p);
    i := ScanComplete(s, at, LineEnd(s, p) + 1, q);
  }


  /** The headings of the whole text, in document order. */
  function ScanHeadings(s: string): (hs: seq<Heading>)
    ensures forall i :: 0 <= i < |hs| ==> WellPlaced(s, hs[i])
    ensures forall i, j :: 0 <= i < j < |hs| ==> hs[i].end < hs[j].start
  {
    var at := Attempts(s);
    ScanOrdered(s, at, 0);
    Scan(s, at, 0)
  }

  /** Every heading reported is a way the regular expression matches at a
      line start, and the one its backtracking search tries first there. */
  lemma ScanHeadingsSound(s: string, i: nat)
    requires i < |ScanHeadings(s)|
    ensures var h := ScanHeadings(s)[i];
            && LineStart(s, h.start)
            && HeadingAt(s, h.start) == Some(h)
            && HeadingMatch(s, h.start, h.level, h.textStart, h.end)
  {
    var h := ScanHeadings(s)[i];
    ScanSound(s, Attempts(s), 0, i);
    HeadingAtSound(s, h.start);
  }

  /** No match is missed: every line start where the regular expression
      can match lies within a reported heading. */
  lemma ScanHeadingsComplete(s: string, q: nat, level: int, t: int, e: int)
    requires HeadingMatch(s, q, level, t, e)
    ensures exists i :: 0 <= i < |ScanHeadings(s)| && ScanHeadings(s)[i].start <= q <= ScanHeadings(s)[i].end
  {
    HeadingAtGreedy(s, q, level, t, e);
    var at := Attempts(s);
    assert at[q] == HeadingAt(s, q);
    var i := ScanComplete(s, at, 0, q);
    assert ScanHeadings(s) == Scan(s, at, 0);
  }

  /** Characters an anchor id keeps: `a-z`, `0-9` and the Hangul syllables
      `가` to `힣`. */
  predicate AnchorChar(c: char) {
    ('a' <= c <= 'z') || ('0' <= c <= '9') || ('가' <= c <= '힣')
  }

  /** `replace(/[^a-z0-9가-힣]/g, '-')`. */
  function DashOut(s: string): (r: string)
    ensures |r| == |s|
    ensures forall i :: 0 <= i < |s| ==> r[i] == (if AnchorChar(s[i]) then s[i] else '-')
  {
    seq(|s|, i requires 0 <= i < |s| => if AnchorChar(s[i]) then s[i] else '-')
  }

  predicate NoDoubleDash(s: string) {
    forall i :: 0 <= i < |s| - 1 ==> !(s[i] == '-' && s[i + 1] == '-')
  }

  /** `replace(/-+/g, '-')`: every run of dashes becomes one dash. */
  function CollapseDashes(s: string): (r: string)
    ensures NoDoubleDash(r)
    ensures forall i :: 0 <= i < |r| ==> r[i] in s
    ensures |r| <= |s| && (r == [] <==> s == [])
    ensures s != [] ==> r[0] == s[0] && r[|r| - 1] == s[|s| - 1]
    decreases |s|
  {
    if |s| <= 1 then s
    else if s[0] == '-' && s[1] == '-' then CollapseDashes(s[1..])
    else
      var rest := CollapseDashes(s[1..]);
      assert forall i :: 0 <= i < |rest| ==> rest[i] in s;
      [s[0]] + rest
  }

  /** A text without two dashes in a row has nothing to collapse. */
  lemma {:induction false} CollapseDashesKeepsClean(s: string)
    requires NoDoubleDash(s)
    ensures CollapseDashes(s) == s
    decreases |s|
  {
    if |s| > 1 {
      var tail := s[1..];
      assert !(s[0] == '-' && s[1] == '-');
      assert NoDoubleDash(tail) by {
        forall i | 0 <= i < |tail| - 1
          ensures !(tail[i] == '-' && tail[i + 1] == '-')
        {
          assert tail[i] == s[i + 1] && tail[i + 1] == s[i + 2];
        }
      }
      CollapseDashesKeepsClean(tail);
      assert CollapseDashes(s) == [s[0]] + CollapseDashes(tail);
      assert [s[0]] + tail == s;
    }
  }

  /** `replace(/^-|-$/g, '')`: one leading and one trailing dash removed. */
  function TrimDashes(s: string): (r: string)
    requires NoDoubleDash(s)
    ensures NoDoubleDash(r)
    ensures forall i :: 0 <= i < |r| ==> r[i] in s
    ensures r == [] || (r[0] != '-' && r[|r| - 1] != '-')
    ensures (s == [] || (s[0] != '-' && s[|s| - 1] != '-')) ==> r == s
  {
    var a := if |s| > 0 && s[0] == '-' then s[1..] else s;
    assert |a| > 0 ==> a[0] != '-';
    if |a| > 0 && a[|a| - 1] == '-' then a[..|a| - 1] else a
  }

  /** An anchor id: only anchor characters and single dashes, no dash at
      either end. */
  predicate WellFormedAnchor(id: string) {
    && (forall i :: 0 <= i < |id| ==> AnchorChar(id[i]) || id[i] == '-')
    && NoDoubleDash(id)
    && (id == [] || (id[0] != '-' && id[|id| - 1] != '-'))
  }

  /** The anchor id of a heading: lower-cased, every other character
      turned into a dash, dash runs collapsed, edge dashes removed. */
  function AnchorId(text: string): (id: string)
    ensures WellFormedAnchor(id)
  {
    var dashed := DashOut(ToLower(text));
    var collapsed := CollapseDashes(dashed);
    assert forall i :: 0 <= i < |collapsed| ==> AnchorChar(collapsed[i]) || collapsed[i] == '-';
    TrimDashes(collapsed)
  }

  /** A text that already has the shape of an anchor id is its own id. */
  lemma AnchorIdFixesWellFormed(text: string)
    requires WellFormedAnchor(text)
    ensures AnchorId(text) == text
  {
    assert ToLower(text) == text;
    assert DashOut(text) == text;
    CollapseDashesKeepsClean(text);
  }

  /** An id is its own anchor id, so anchors can be regenerated from them. */
  lemma AnchorIdIdempotent(text: string)
    ensures AnchorId(AnchorId(text)) == AnchorId(text)
  {
    AnchorIdFixesWellFormed(AnchorId(text));
  }

  /** The id keeps every anchor character of the lower-cased text, in
      order: only the characters in between turn into single dashes. */
  lemma AnchorIdKeepsLetters(text: string)
    ensures Filter(AnchorId(text), AnchorChar) == Filter(ToLower(text), AnchorChar)
  {
    var dashed := DashOut(ToLower(text));
    DashOutFilter(ToLower(text));
    CollapseDashesFilter(dashed);
    TrimDashesFilter(CollapseDashes(dashed));
  }

  lemma {:induction false} DashOutFilter(s: string)
    ensures Filter(DashOut(s), AnchorChar) == Filter(s, AnchorChar)
    decreases |s|
  {
    if s != [] {
      assert DashOut(s) == [DashOut(s)[0]] + DashOut(s[1..]);
      FilterAppend([DashOut(s)[0]], DashOut(s[1..]), AnchorChar);
      assert s == [s[0]] + s[1..];
      FilterAppend([s[0]], s[1..], AnchorChar);
      DashOutFilter(s[1..]);
    }
  }

  lemma {:induction false} CollapseDashesFilter(s: string)
    ensures Filter(CollapseDashes(s), AnchorChar) == Filter(s, AnchorChar)
    decreases |s|
  {
    if |s| > 1 {
      assert s == [s[0]] + s[1..];
      FilterAppend([s[0]], s[1..], AnchorChar);
      CollapseDashesFilter(s[1..]);
      if !(s[0] == '-' && s[1] == '-') {
        FilterAppend([s[0]], CollapseDashes(s[1..]), AnchorChar);
      }
    }
  }

  lemma TrimDashesFilter(s: string)
    requires NoDoubleDash(s)
    ensures Filter(TrimDashes(s), AnchorChar) == Filter(s, AnchorChar)
  {
    var a := if |s| > 0 && s[0] == '-' then s[1..] else s;
    if |s| > 0 && s[0] == '-' {
      assert s == "-" + a;
      FilterSkipsDash(a, AnchorChar);
    }
    if |a| > 0 && a[|a| - 1] == '-' {
      var b := a[..|a| - 1];
      assert a == b + "-";
      FilterSkipsDash(b, AnchorChar);
      assert TrimDashes(s) == b;
    } else {
      assert TrimDashes(s) == a;
    }
  }

  /** A dash at either end leaves nothing in a class without dashes. */
  lemma FilterSkipsDash(s: string, keep: char -> bool)
    requires !keep('-')
    ensures Filter("-" + s, keep) == Filter(s, keep)
    ensures Filter(s + "-", keep) == Filter(s, keep)
  {
    FilterAppend("-", s, keep);
    FilterAppend(s, "-", keep);
  }

  /** Some character of `text` is a letter, digit or Hangul syllable once
      lower-cased. */
  predicate HasAnchorChar(text: string) {
    exists i :: 0 <= i < |text| && AnchorChar(LowerChar(text[i]))
  }

  /** A heading gets an empty id exactly when it has no letter, digit or
      Hangul syllable. */
  lemma AnchorIdEmpty(text: string)
    ensures AnchorId(text) == [] <==> !HasAnchorChar(text)
  {
    var id := AnchorId(text);
    AnchorIdKeepsLetters(text);
    FilterEmpty(id, AnchorChar);
    FilterEmpty(ToLower(text), AnchorChar);
    if id != [] {
      assert AnchorChar(id[0]);
    }
  }

  /** Words separated by a space get their ids joined by one dash, so the
      dashes of an id stand exactly where the text had other characters. */
  lemma AnchorIdSeparator(a: string, b: string)
    requires HasAnchorChar(a) && HasAnchorChar(b)
    ensures AnchorId(a + " " + b) == AnchorId(a) + "-" + AnchorId(b)
  {
    var x, y := DashOut(ToLower(a)), DashOut(ToLower(b));
    var i :| 0 <= i < |a| && AnchorChar(LowerChar(a[i]));
    var j :| 0 <= j < |b| && AnchorChar(LowerChar(b[j]));
    assert x[i] != '-' && y[j] != '-';
    ToLowerAppend(a, " ");
    ToLowerAppend(a + " ", b);
    assert ToLower(" ") == " ";
    DashOutAppend(ToLower(a), " ");
    DashOutAppend(ToLower(a) + " ", ToLower(b));
    assert DashOut(" ") == "-";
    CleanJoin(x, y);
  }

  lemma ToLowerAppend(u: string, v: string)
    ensures ToLower(u + v) == ToLower(u) + ToLower(v)
  {
    assert forall i :: 0 <= i < |u + v| ==> ToLower(u + v)[i] == (ToLower(u) + ToLower(v))[i];
  }

  lemma DashOutAppend(u: string, v: string)
    ensures DashOut(u + v) == DashOut(u) + DashOut(v)
  {
    assert forall i :: 0 <= i < |u + v| ==> DashOut(u + v)[i] == (DashOut(u) + DashOut(v))[i];
  }

  /** Collapsing and trimming dashes of two dashed texts joined by a dash. */
  lemma CleanJoin(x: string, y: string)
    requires exists i :: 0 <= i < |x| && x[i] != '-'
    requires exists j :: 0 <= j < |y| && y[j] != '-'
    ensures TrimDashes(CollapseDashes(x + "-" + y))
            == TrimDashes(CollapseDashes(x)) + "-" + TrimDashes(CollapseDashes(y))
  {
    var x1, d1 := SplitTrailingDashes(x);
    var d2, y1 := SplitLeadingDashes(y);
    if x1 == [] {
      assert false;
    } else if y1 == [] {
      assert false;
    } else {
      CollapseJoin(x1, d1, d2, y1);
      CleanTrailingDashes(x1, d1);
      CleanLeadingDashes(d2, y1);
      TrimDashesJoin(CollapseDashes(x1), CollapseDashes(y1));
    }
  }

  /** `x` as its text up to the trailing dash run, and that run. */
  lemma SplitTrailingDashes(x: string) returns (x1: string, d1: string)
    ensures x == x1 + d1 && AllDashes(d1)
    ensures x1 == [] || x1[|x1| - 1] != '-'
  {
    var p := |x| - TrailingDashes(x);
    x1, d1 := x[..p], x[p..];
    assert x == x1 + d1;
  }

  /** `y` as its leading dash run and the text after it. */
  lemma SplitLeadingDashes(y: string) returns (d2: string, y1: string)
    ensures y == d2 + y1 && AllDashes(d2)
    ensures y1 == [] || y1[0] != '-'
  {
    var q := LeadingDashes(y);
    d2, y1 := y[..q], y[q..];
    assert y == d2 + y1;
  }

  /** The dash runs around a joining dash collapse into that one dash. */
  lemma CollapseJoin(x1: string, d1: string, d2: string, y1: string)
    requires x1 != [] && x1[|x1| - 1] != '-' && y1 != [] && y1[0] != '-'
    requires AllDashes(d1) && AllDashes(d2)
    ensures CollapseDashes(x1 + d1 + "-" + (d2 + y1))
            == CollapseDashes(x1) + "-" + CollapseDashes(y1)
  {
    var d := d1 + "-" + d2;
    Regroup(x1, d1, "-");
    Regroup(x1, d1 + "-", d2 + y1);
    Regroup(d1 + "-", d2, y1);
    assert AllDashes(d);
    CollapseAllDashes(d);
    CollapseAppend(d, y1);
    CollapseAppend(x1, d + y1);
  }

  /** Dashes after the last other character are trimmed away. */
  lemma CleanTrailingDashes(x1: string, d1: string)
    requires x1 != [] && x1[|x1| - 1] != '-' && AllDashes(d1)
    ensures TrimDashes(CollapseDashes(x1 + d1)) == TrimDashes(CollapseDashes(x1))
  {
    CollapseAppend(x1, d1);
    if d1 != [] {
      CollapseAllDashes(d1);
      TrimDashesDropsTrailing(CollapseDashes(x1));
    } else {
      assert x1 + d1 == x1;
    }
  }

  /** Dashes before the first other character are trimmed away. */
  lemma CleanLeadingDashes(d2: string, y1: string)
    requires y1 != [] && y1[0] != '-' && AllDashes(d2)
    ensures TrimDashes(CollapseDashes(d2 + y1)) == TrimDashes(CollapseDashes(y1))
  {
    CollapseAppend(d2, y1);
    if d2 != [] {
      CollapseAllDashes(d2);
      TrimDashesDropsLeading(CollapseDashes(y1));
    } else {
      assert d2 + y1 == y1;
    }
  }

  predicate AllDashes(s: string) {
    forall i :: 0 <= i < |s| ==> s[i] == '-'
  }

  /** Length of the dash run at the end of `s`. */
  function TrailingDashes(s: string): (n: nat)
    ensures n <= |s| && AllDashes(s[|s| - n..])
    ensures n == |s| || s[|s| - n - 1] != '-'
  {
    if s != [] && s[|s| - 1] == '-' then
      var n := 1 + TrailingDashes(s[..|s| - 1]);
      assert s[|s| - n..] == s[..|s| - 1][|s| - n..] + "-";
      n
    else 0
  }

  /** Length of the dash run at the start of `s`. */
  function LeadingDashes(s: string): (n: nat)
    ensures n <= |s| && AllDashes(s[..n])
    ensures n == |s| || s[n] != '-'
  {
    if s != [] && s[0] == '-' then 1 + LeadingDashes(s[1..]) else 0
  }

  /** A dash run collapses to one dash. */
  lemma {:induction false} CollapseAllDashes(d: string)
    requires d != [] && AllDashes(d)
    ensures CollapseDashes(d) == "-"
    decreases |d|
  {
    if |d| > 1 {
      CollapseAllDashes(d[1..]);
    }
  }

  /** Collapsing works piecewise where no dash run crosses the seam. */
  lemma {:induction false} CollapseAppend(u: string, v: string)
    requires u == [] || v == [] || u[|u| - 1] != '-' || v[0] != '-'
    ensures CollapseDashes(u + v) == CollapseDashes(u) + CollapseDashes(v)
    decreases |u|
  {
    var s := u + v;
    if u == [] {
      assert s == v;
    } else if v == [] {
      assert s == u;
    } else if |u| == 1 {
      assert s[1..] == v;
    } else {
      DropFront(u, v, 1);
      CollapseAppend(u[1..], v);
      CollapseAppendStep(u, v);
    }
  }

  /** One step of `CollapseAppend`: the first character of `u` is kept or
      dropped alike in `u + v` and in `u`. */
  lemma CollapseAppendStep(u: string, v: string)
    requires |u| >= 2 && v != []
    requires CollapseDashes(u[1..] + v) == CollapseDashes(u[1..]) + CollapseDashes(v)
    ensures CollapseDashes(u + v) == CollapseDashes(u) + CollapseDashes(v)
  {
    var s := u + v;
    DropFront(u, v, 1);
    assert s[0] == u[0] && s[1] == u[1];
    if u[0] == '-' && u[1] == '-' {
      assert CollapseDashes(s) == CollapseDashes(u[1..] + v);
      assert CollapseDashes(u) == CollapseDashes(u[1..]);
    } else {
      assert CollapseDashes(s) == [u[0]] + CollapseDashes(u[1..] + v);
      assert CollapseDashes(u) == [u[0]] + CollapseDashes(u[1..]);
      Regroup([u[0]], CollapseDashes(u[1..]), CollapseDashes(v));
    }
  }

  /** Trimming the dashes of two pieces joined by a dash. */
  lemma TrimDashesJoin(p: string, q: string)
    requires p != [] && p[|p| - 1] != '-' && q != [] && q[0] != '-'
    requires NoDoubleDash(p) && NoDoubleDash(q)
    ensures NoDoubleDash(p + "-" + q)
    ensures TrimDashes(p + "-" + q) == TrimDashes(p) + "-" + TrimDashes(q)
  {
    NoDoubleDashJoin(p, q);
    var a := if p[0] == '-' then p[1..] else p;
    var b := if q[|q| - 1] == '-' then q[..|q| - 1] else q;
    TrimDashesEnds(p, a, q, b);
    TrimDashesJoinFront(p, q, a);
    var t := a + "-" + q;
    Regroup(a, "-", q);
    if q[|q| - 1] == '-' {
      DropLast(a + "-", q);
    }
    TrimDashesSteps(p + "-" + q, t, a + "-" + b);
  }

  /** A single joining dash makes no double dash. */
  lemma NoDoubleDashJoin(p: string, q: string)
    requires p != [] && p[|p| - 1] != '-' && q != [] && q[0] != '-'
    requires NoDoubleDash(p) && NoDoubleDash(q)
    ensures NoDoubleDash(p + "-" + q)
  {
    var s := p + "-" + q;
    forall i | 0 <= i < |s| - 1
      ensures !(s[i] == '-' && s[i + 1] == '-')
    {
      if i + 1 < |p| {
        assert s[i] == p[i] && s[i + 1] == p[i + 1];
      } else if i > |p| {
        assert s[i] == q[i - |p| - 1] && s[i + 1] == q[i - |p|];
      }
    }
  }

  /** The leading dash of `p` is the leading dash of `p + "-" + q`. */
  lemma TrimDashesJoinFront(p: string, q: string, a: string)
    requires p != []
    requires a == if p[0] == '-' then p[1..] else p
    ensures var s := p + "-" + q; (if s[0] == '-' then s[1..] else s) == a + "-" + q
  {
    Regroup(p, "-", q);
    Regroup(a, "-", q);
    if p[0] == '-' {
      DropFront(p, "-" + q, 1);
    }
  }

  /** `TrimDashes` as its two steps: drop a leading dash, then a trailing one. */
  lemma TrimDashesSteps(s: string, t: string, r: string)
    requires NoDoubleDash(s)
    requires t == if |s| > 0 && s[0] == '-' then s[1..] else s
    requires r == if |t| > 0 && t[|t| - 1] == '-' then t[..|t| - 1] else t
    ensures TrimDashes(s) == r
  {
  }

  /** A piece not ending in a dash loses at most its leading dash; one not
      starting with a dash loses at most its trailing dash. */
  lemma TrimDashesEnds(p: string, a: string, q: string, b: string)
    requires p != [] && p[|p| - 1] != '-' && NoDoubleDash(p)
    requires q != [] && q[0] != '-' && NoDoubleDash(q)
    requires a == if p[0] == '-' then p[1..] else p
    requires b == if q[|q| - 1] == '-' then q[..|q| - 1] else q
    ensures TrimDashes(p) == a && TrimDashes(q) == b
  {
  }

  lemma TrimDashesDropsTrailing(p: string)
    requires p != [] && p[|p| - 1] != '-' && NoDoubleDash(p) && NoDoubleDash(p + "-")
    ensures TrimDashes(p + "-") == TrimDashes(p)
  {
    var a := if p[0] == '-' then p[1..] else p;
    assert (if (p + "-")[0] == '-' then (p + "-")[1..] else p + "-") == a + "-";
    assert (a + "-")[..|a|] == a;
  }

  lemma TrimDashesDropsLeading(q: string)
    requires q != [] && q[0] != '-' && NoDoubleDash(q) && NoDoubleDash("-" + q)
    ensures TrimDashes("-" + q) == TrimDashes(q)
  {
    assert ("-" + q)[1..] == q;
  }

  // ------------------------------------------------- table of contents

  /** `generateTableOfContents`: one entry per heading the scan finds, in
      document order, with the number of `#` signs as its level, the
      heading text trimmed, and that text's anchor id. */
  function GenerateTableOfContents(s: string): (toc: seq<TocEntry>)
    ensures |toc| == |ScanHeadings(s)|
    ensures forall i :: 0 <= i < |toc| ==>
              var h := ScanHeadings(s)[i];
              && toc[i].level == h.level
              && toc[i].text == Trim(s[h.textStart..h.end])
              && toc[i].id == AnchorId(toc[i].text)
  {
    var hs := ScanHeadings(s);
    seq(|hs|, i requires 0 <= i < |hs| =>
      var text := Trim(s[hs[i].textStart..hs[i].end]);
      TocEntry(hs[i].level, text, AnchorId(text)))
  }

  /** Each entry comes from a match of `/^(#{1,6})\s+(.+)$/m` at a line
      start: its level is between 1 and 6, its text is group 2 trimmed,
      and its id is a well-formed anchor keeping every anchor character of
      the lower-cased text. */
  lemma TableOfContentsEntry(s: string, i: nat)
    requires i < |GenerateTableOfContents(s)|
    ensures var e, h := GenerateTableOfContents(s)[i], ScanHeadings(s)[i];
            && 1 <= e.level <= 6
            && HeadingMatch(s, h.start, e.level, h.textStart, h.end)
            && IsTrimOf(e.text, s[h.textStart..h.end])
            && WellFormedAnchor(e.id)
            && Filter(e.id, AnchorChar) == Filter(ToLower(e.text), AnchorChar)
  {
    var e := GenerateTableOfContents(s)[i];
    ScanHeadingsSound(s, i);
    AnchorIdKeepsLetters(e.text);
  }

  // --------------------------------------------------------------- slug

  /** Characters the suggestion keeps before turning whitespace into
      dashes: `[a-z0-9\s-]`. */
  predicate SlugSourceChar(c: char) {
    ('a' <= c <= 'z') || ('0' <= c <= '9') || IsWhitespace(c) || c == '-'
  }

  predicate SlugChar(c: char) {
    ('a' <= c <= 'z') || ('0' <= c <= '9') || c == '-'
  }

  /** `replace(/\s+/g, "-")`: every whitespace run becomes one dash. */
  function DashWhitespace(s: string): (r: string)
    ensures forall i :: 0 <= i < |r| ==> !IsWhitespace(r[i])
    ensures forall i :: 0 <= i < |r| ==> r[i] in s || r[i] == '-'
    ensures (forall i :: 0 <= i < |s| ==> !IsWhitespace(s[i])) ==> r == s
    decreases |s|
  {
    if s == [] then []
    else if IsWhitespace(s[0]) then
      var rest := DashWhitespace(s[LeadingWhitespace(s)..]);
      assert forall i :: 0 <= i < |rest| ==> rest[i] in s || rest[i] == '-';
      "-" + rest
    else
      var rest := DashWhitespace(s[1..]);
      assert forall i :: 0 <= i < |rest| ==> rest[i] in s || rest[i] == '-';
      [s[0]] + rest
  }

  /** `a-z` and `0-9`: the slug characters that are not separators. */
  predicate SlugLetter(c: char) {
    ('a' <= c <= 'z') || ('0' <= c <= '9')
  }

  lemma SlugLetterNotWhitespace()
    ensures forall c :: SlugLetter(c) ==> !IsWhitespace(c) && SlugSourceChar(c)
  {
  }

  /** Turning whitespace into dashes keeps every letter in order. */
  lemma {:induction false} DashWhitespaceFilter(s: string)
    ensures Filter(DashWhitespace(s), SlugLetter) == Filter(s, SlugLetter)
    decreases |s|
  {
    if s != [] {
      if IsWhitespace(s[0]) {
        var lead := LeadingWhitespace(s);
        SlugLetterNotWhitespace();
        DashWhitespaceFilter(s[lead..]);
        FilterAppend("-", DashWhitespace(s[lead..]), SlugLetter);
        assert s == s[..lead] + s[lead..];
        FilterAppend(s[..lead], s[lead..], SlugLetter);
        FilterWhitespace(s[..lead], SlugLetter);
      } else {
        DashWhitespaceFilter(s[1..]);
        FilterAppend([s[0]], DashWhitespace(s[1..]), SlugLetter);
        assert s == [s[0]] + s[1..];
        FilterAppend([s[0]], s[1..], SlugLetter);
      }
    }
  }

  /** The slug `handleTitleChange` suggests: lower-cased, trimmed, stripped
      of everything but `[a-z0-9\s-]`, whitespace runs turned into dashes.
      It consists of slug characters only. */
  function SuggestSlug(title: string): (slug: string)
    ensures forall i :: 0 <= i < |slug| ==> SlugChar(slug[i])
  {
    DashWhitespace(Filter(Trim(ToLower(title)), SlugSourceChar))
  }

  /** A title made of slug characters only is its own slug. */
  lemma SuggestSlugKeepsSlug(title: string)
    requires forall i :: 0 <= i < |title| ==> SlugChar(title[i])
    ensures SuggestSlug(title) == title
  {
    assert ToLower(title) == title;
    TrimNoWhitespace(title);
    FilterKeepsAll(title, SlugSourceChar);
  }

  /** A suggested slug suggests itself. */
  lemma SuggestSlugIdempotent(title: string)
    ensures SuggestSlug(SuggestSlug(title)) == SuggestSlug(title)
  {
    SuggestSlugKeepsSlug(SuggestSlug(title));
  }

  /** The slug keeps every ASCII letter and digit of the lower-cased title,
      in order, and nothing else but dashes. */
  lemma SuggestSlugKeepsLetters(title: string)
    ensures Filter(SuggestSlug(title), SlugLetter) == Filter(ToLower(title), SlugLetter)
  {
    var trimmed := Trim(ToLower(title));
    SlugLetterNotWhitespace();
    DashWhitespaceFilter(Filter(trimmed, SlugSourceChar));
    FilterWithin(trimmed, SlugSourceChar, SlugLetter);
    TrimFilter(ToLower(title), SlugLetter);
  }

  /** `replace(/\s+/g, "-")` turns each whole whitespace run into exactly
      one dash and keeps the text on either side of it. */
  lemma {:induction false} DashWhitespaceRun(u: string, w: string, v: string)
    requires u == [] || !IsWhitespace(u[|u| - 1])
    requires w != [] && forall i :: 0 <= i < |w| ==> IsWhitespace(w[i])
    requires v == [] || !IsWhitespace(v[0])
    ensures DashWhitespace(u + w + v) == DashWhitespace(u) + "-" + DashWhitespace(v)
    decreases |u|
  {
    if u == [] {
      DashWhitespaceRunFirst(w, v);
      assert u + w + v == w + v;
      assert DashWhitespace(u) == [];
    } else if IsWhitespace(u[0]) {
      LeadingWhitespaceShort(u);
      DashWhitespaceRun(u[LeadingWhitespace(u)..], w, v);
      DashWhitespaceRunSpace(u, w, v);
    } else {
      DashWhitespaceRun(u[1..], w, v);
      DashWhitespaceRunLetter(u, w, v);
    }
  }

  /** The run at the very start becomes the leading dash. */
  lemma DashWhitespaceRunFirst(w: string, v: string)
    requires w != [] && forall i :: 0 <= i < |w| ==> IsWhitespace(w[i])
    requires v == [] || !IsWhitespace(v[0])
    ensures DashWhitespace(w + v) == "-" + DashWhitespace(v)
  {
    var s := w + v;
    LeadingWhitespaceRun(w, v);
    DropFront(w, v, |w|);
    assert w[|w|..] + v == v;
    assert s[0] == w[0];
  }

  /** A text ending in a character that is not whitespace has more than
      its leading whitespace, and keeps that last character without it. */
  lemma LeadingWhitespaceShort(u: string)
    requires u != [] && !IsWhitespace(u[|u| - 1])
    ensures LeadingWhitespace(u) < |u|
    ensures var u' := u[LeadingWhitespace(u)..]; u' != [] && u'[|u'| - 1] == u[|u| - 1]
  {
  }

  /** A whitespace run of `u` before the separating run. */
  lemma DashWhitespaceRunSpace(u: string, w: string, v: string)
    requires u != [] && IsWhitespace(u[0]) && LeadingWhitespace(u) < |u|
    requires var u' := u[LeadingWhitespace(u)..];
             DashWhitespace(u' + w + v) == DashWhitespace(u') + "-" + DashWhitespace(v)
    ensures DashWhitespace(u + w + v) == DashWhitespace(u) + "-" + DashWhitespace(v)
  {
    var lead := LeadingWhitespace(u);
    var s, u' := u + w + v, u[lead..];
    LeadingWhitespacePrefix(u, w + v);
    Regroup(u, w, v);
    DropFront(u, w + v, lead);
    Regroup(u', w, v);
    assert s[0] == u[0];
    assert DashWhitespace(s) == "-" + DashWhitespace(u' + w + v);
    assert DashWhitespace(u) == "-" + DashWhitespace(u');
    Regroup("-", DashWhitespace(u'), "-");
    Regroup("-" + DashWhitespace(u'), "-", DashWhitespace(v));
    Regroup("-", DashWhitespace(u') + "-", DashWhitespace(v));
  }

  /** A character of `u` that is not whitespace, before the separating run. */
  lemma DashWhitespaceRunLetter(u: string, w: string, v: string)
    requires u != [] && !IsWhitespace(u[0])
    requires DashWhitespace(u[1..] + w + v) == DashWhitespace(u[1..]) + "-" + DashWhitespace(v)
    ensures DashWhitespace(u + w + v) == DashWhitespace(u) + "-" + DashWhitespace(v)
  {
    var s, u' := u + w + v, u[1..];
    Regroup(u, w, v);
    DropFront(u, w + v, 1);
    Regroup(u', w, v);
    assert s[0] == u[0];
    assert DashWhitespace(s) == [u[0]] + DashWhitespace(u' + w + v);
    assert DashWhitespace(u) == [u[0]] + DashWhitespace(u');
    Regroup([u[0]], DashWhitespace(u'), "-");
    Regroup([u[0]] + DashWhitespace(u'), "-", DashWhitespace(v));
    Regroup([u[0]], DashWhitespace(u') + "-", DashWhitespace(v));
  }

  lemma {:induction false} LeadingWhitespaceRun(w: string, v: string)
    requires forall i :: 0 <= i < |w| ==> IsWhitespace(w[i])
    requires v == [] || !IsWhitespace(v[0])
    ensures LeadingWhitespace(w + v) == |w|
    decreases |w|
  {
    if w == [] {
      assert w + v == v;
    } else {
      assert (w + v)[1..] == w[1..] + v;
      LeadingWhitespaceRun(w[1..], v);
    }
  }

  lemma {:induction false} LeadingWhitespacePrefix(u: string, rest: string)
    requires LeadingWhitespace(u) < |u|
    ensures LeadingWhitespace(u + rest) == LeadingWhitespace(u)
    decreases |u|
  {
    if IsWhitespace(u[0]) {
      assert (u + rest)[1..] == u[1..] + rest;
      LeadingWhitespacePrefix(u[1..], rest);
    }
  }

  /** A text of `[a-z0-9\s-]` with no whitespace at either end is only
      dashed, not trimmed or filtered. */
  lemma SlugOfSourceText(t: string)
    requires Trimmed(t) && forall i :: 0 <= i < |t| ==> SlugSourceChar(t[i])
    ensures SuggestSlug(t) == DashWhitespace(t)
  {
    SlugSourceCharLower();
    assert ToLower(t) == t;
    FilterKeepsAll(t, SlugSourceChar);
  }

  lemma SlugSourceCharLower()
    ensures forall c :: SlugSourceChar(c) ==> LowerChar(c) == c
  {
    forall c | SlugSourceChar(c) ensures LowerChar(c) == c {
      assert !('A' <= c <= 'Z');
    }
  }

  /** Two parts of a title separated by whitespace get their slugs joined
      by one dash: each whitespace run between words becomes one `-`. */
  lemma SuggestSlugSeparator(a: string, w: string, b: string)
    requires a != [] && Trimmed(a) && forall i :: 0 <= i < |a| ==> SlugSourceChar(a[i])
    requires b != [] && Trimmed(b) && forall i :: 0 <= i < |b| ==> SlugSourceChar(b[i])
    requires w != [] && forall i :: 0 <= i < |w| ==> IsWhitespace(w[i])
    ensures SuggestSlug(a + w + b) == SuggestSlug(a) + "-" + SuggestSlug(b)
  {
    var t := a + w + b;
    assert forall i :: 0 <= i < |t| ==> SlugSourceChar(t[i]);
    assert Trimmed(t);
    SlugOfSourceText(t);
    SlugOfSourceText(a);
    SlugOfSourceText(b);
    DashWhitespaceRun(a, w, b);
  }
}
