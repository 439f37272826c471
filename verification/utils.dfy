/** The text helpers of lib/utils.ts: first-image thumbnail extraction,
    `truncateText`, and the relative-day labels of `formatDate`.
    The `public` asset directory is the set of site paths that exist in it;
    the day difference of `formatDate` is an argument. */
module Utils {
  import opened Wrappers
  import opened JsString

  /** An image reference `![alt](target)` in `s`: `!` at `at`, `]` at `mid`,
      `)` at `end`, target `s[mid + 2..end]`, and no line break from the alt
      text to the closing parenthesis (`.` does not cross lines). Any such
      triple is a way `/!\[.*?\]\((.*?)\)/` can match. */
  predicate ImageRef(s: string, at: int, mid: int, end: int) {
    && 0 <= at && at + 2 <= mid && mid + 2 <= end < |s|
    && s[at] == '!' && s[at + 1] == '['
    && s[mid] == ']' && s[mid + 1] == '('
    && s[end] == ')'
    && NoLineBreak(s, at + 2, end)
  }

  /** An image reference that ends before `n` is one of `s[..n]`. */
  lemma ImageRefInPrefix(s: string, n: nat, at: int, mid: int, end: int)
    requires ImageRef(s, at, mid, end) && end < n <= |s|
    ensures ImageRef(s[..n], at, mid, end)
  {
    var t := s[..n];
    assert forall k :: at + 2 <= k < end ==> t[k] == s[k];
  }

  /** The match the regular expression returns: leftmost start, and for that
      start the shortest alt text, then the shortest target (both groups are
      lazy). */
  ghost predicate FirstImageRef(s: string, at: int, mid: int, end: int) {
    && ImageRef(s, at, mid, end)
    && forall at', mid', end' :: ImageRef(s, at', mid', end') ==>
         (at < at' || (at == at' && (mid < mid' || (mid == mid' && end <= end'))))
  }

  datatype ImageMatch = ImageMatch(at: nat, mid: nat, end: nat)

  /** Position of the first `)` at or after `from` on the same line. */
  function FindClose(s: string, from: nat): (r: Option<nat>)
    requires from <= |s|
    ensures r.Some? ==> from <= r.value < |s| && s[r.value] == ')' && NoLineBreak(s, from, r.value)
    ensures r.Some? ==> forall m :: from <= m < r.value ==> s[m] != ')'
    ensures r.None? ==> forall k :: from <= k < |s| && s[k] == ')' ==> !NoLineBreak(s, from, k)
    decreases |s| - from
  {
    if from == |s| || IsLineTerminator(s[from]) then None
    else if s[from] == ')' then Some(from)
    else FindClose(s, from + 1)
  }

  predicate OpensTarget(s: string, j: int) {
    0 <= j && j + 1 < |s| && s[j] == ']' && s[j + 1] == '('
  }

  /** Position of the first `](` at or after `from` on the same line. */
  function FindOpen(s: string, from: nat): (r: Option<nat>)
    requires from <= |s|
    ensures r.Some? ==> from <= r.value && OpensTarget(s, r.value) && NoLineBreak(s, from, r.value)
    ensures r.Some? ==> forall m :: from <= m < r.value ==> !OpensTarget(s, m)
    ensures r.None? ==> forall j :: from <= j && OpensTarget(s, j) ==> !NoLineBreak(s, from, j)
    decreases |s| - from
  {
    if from == |s| || IsLineTerminator(s[from]) then None
    else if OpensTarget(s, from) then Some(from)
    else FindOpen(s, from + 1)
  }

  /** The lazy match attempt at one start position. If the first `](` of
      the line has no `)` after it on the line, no later `](` has one
      either, so backtracking finds nothing more. */
  function MatchAt(s: string, at: nat): (r: Option<ImageMatch>)
    requires at <= |s|
    ensures r.Some? ==> r.value.at == at && ImageRef(s, at, r.value.mid, r.value.end)
    ensures r.Some? ==> forall mid', end' :: ImageRef(s, at, mid', end') ==>
                          r.value.mid < mid' || (r.value.mid == mid' && r.value.end <= end')
    ensures r.None? ==> forall mid, end :: !ImageRef(s, at, mid, end)
  {
    if at + 1 < |s| && s[at] == '!' && s[at + 1] == '[' then
      match FindOpen(s, at + 2)
      case None =>
        assert forall mid, end :: ImageRef(s, at, mid, end) ==> NoLineBreak(s, at + 2, mid);
        None
      case Some(mid) =>
        RefAfterFirstOpen(s, at, mid);
        match FindClose(s, mid + 2)
        case None => None
        case Some(end) =>
          assert NoLineBreak(s, at + 2, end);
          Some(ImageMatch(at, mid, end))
    else
      None
  }

  /** Every image reference starting at `at` has its `](` no earlier than
      the first one of the line, and its `)` on the same line after it. */
  lemma RefAfterFirstOpen(s: string, at: nat, mid: nat)
    requires at + 2 <= mid && OpensTarget(s, mid) && NoLineBreak(s, at + 2, mid)
    requires forall m :: at + 2 <= m < mid ==> !OpensTarget(s, m)
    ensures forall mid', end' :: ImageRef(s, at, mid', end') ==>
              mid <= mid' && mid + 2 <= end' && NoLineBreak(s, mid + 2, end')
  {
    forall mid', end' | ImageRef(s, at, mid', end')
      ensures mid <= mid' && mid + 2 <= end' && NoLineBreak(s, mid + 2, end')
    {
      assert OpensTarget(s, mid');
    }
  }

  /** The leftmost image reference starting at or after `from`. */
  function FirstMatchFrom(s: string, from: nat): (r: Option<ImageMatch>)
    requires from <= |s|
    ensures r.Some? ==> from <= r.value.at && ImageRef(s, r.value.at, r.value.mid, r.value.end)
    ensures r.Some? ==> forall at', mid', end' :: from <= at' && ImageRef(s, at', mid', end') ==>
                          (r.value.at < at' || (r.value.at == at' && (r.value.mid < mid' || (r.value.mid == mid' && r.value.end <= end'))))
    ensures r.None? ==> forall at, mid, end :: from <= at ==> !ImageRef(s, at, mid, end)
    decreases |s| - from
  {
    if from == |s| then None
    else
      match MatchAt(s, from)
      case Some(m) => Some(m)
      case None => FirstMatchFrom(s, from + 1)
  }

  /** `content.match(/!\[.*?\]\((.*?)\)/)`: the first image reference, or
      none when there is no reference at all. */
  function FirstImage(s: string): (r: Option<ImageMatch>)
    ensures r.Some? ==> FirstImageRef(s, r.value.at, r.value.mid, r.value.end)
    ensures r.None? <==> forall at, mid, end :: !ImageRef(s, at, mid, end)
  {
    FirstMatchFrom(s, 0)
  }

  /** The target (capture group 1) of a match. */
  function Target(s: string, m: ImageMatch): string
    requires ImageRef(s, m.at, m.mid, m.end)
  {
    s[m.mid + 2..m.end]
  }

  /** A relative image path made site-absolute by prefixing `/`. */
  function SitePath(p: string): (r: string)
    ensures StartsWith(r, "/")
    ensures StartsWith(p, "/") ==> r == p
    ensures !StartsWith(p, "/") ==> r == "/" + p
  {
    if StartsWith(p, "/") then p else "/" + p
  }

  /** `extractThumbnailFromMarkdown`: only the first image reference counts.
      An empty target gives none; a target starting with `http` is returned
      as it is without any check; any other target is made site-absolute
      and returned only if that file exists under `public`. */
  function ExtractThumbnail(content: string, publicFiles: set<string>): (r: Option<string>)
    ensures FirstImage(content).None? ==> r.None?
    ensures FirstImage(content).Some? ==>
              var t := Target(content, FirstImage(content).value);
              && (t == "" ==> r.None?)
              && (t != "" && StartsWith(t, "http") ==> r == Some(t))
              && (t != "" && !StartsWith(t, "http") ==>
                    (r.Some? <==> SitePath(t) in publicFiles) && (r.Some? ==> r.value == SitePath(t)))
    ensures r.Some? ==> StartsWith(r.value, "http") || (StartsWith(r.value, "/") && r.value in publicFiles)
  {
    match FirstImage(content)
    case None => None
    case Some(m) =>
      var t := Target(content, m);
      if t == "" then None
      else if StartsWith(t, "http") then Some(t)
      else if SitePath(t) in publicFiles then Some(SitePath(t))
      else None
  }

  /** `truncateText(text, maxLength)`: the text itself when it fits;
      otherwise the first `maxLength` characters (none when `maxLength` is
      negative, as `substring` clamps), trimmed, followed by `...`. */
  function TruncateText(text: string, maxLength: int): (r: string)
    ensures |text| <= maxLength ==> r == text
    ensures |text| > maxLength ==>
              var cut := if maxLength < 0 then 0 else maxLength;
              && EndsWith(r, "...")
              && |r| <= cut + 3
              && IsTrimOf(r[..|r| - 3], text[..cut])
  {
    if |text| <= maxLength then text
    else
      var cut := if maxLength < 0 then 0 else maxLength;
      var t := Trim(text[..cut]);
      assert (t + "...")[..|t|] == t;
      t + "..."
  }

  /** Cutting where the text has no whitespace on either side of the cut
      keeps exactly the first `maxLength` characters. */
  lemma TruncateTextTrimmedPrefix(text: string, maxLength: nat)
    requires maxLength < |text| && Trimmed(text[..maxLength])
    ensures TruncateText(text, maxLength) == text[..maxLength] + "..."
  {
    var r := TruncateText(text, maxLength);
    TrimUnique(text[..maxLength], r[..|r| - 3]);
  }

  /** The contract pins the result down: any trim of the cut prefix,
      followed by `...`, is the truncation. */
  lemma TruncateTextDetermined(text: string, maxLength: int, t: string)
    requires |text| > maxLength
    requires IsTrimOf(t, text[..if maxLength < 0 then 0 else maxLength])
    ensures TruncateText(text, maxLength) == t + "..."
  {
    var cut := if maxLength < 0 then 0 else maxLength;
    var r := TruncateText(text, maxLength);
    TrimUnique(text[..cut], r[..|r| - 3]);
    TrimUnique(text[..cut], t);
    assert r == r[..|r| - 3] + "...";
  }

  /** How `formatDate` describes a post `diffDays` days old. */
  datatype DateLabel = Today | Yesterday | DaysAgo(days: int) | WeeksAgo(weeks: int) | Calendar

  /** The bucketing of `formatDate`: 0 is today, 1 yesterday, up to 7 (a
      future date included) a day count, 8 to 30 a week count rounded up,
      anything older the calendar date. */
  function Bucket(diffDays: int): (b: DateLabel)
    ensures b == Today <==> diffDays == 0
    ensures b == Yesterday <==> diffDays == 1
    ensures b.DaysAgo? <==> diffDays <= 7 && diffDays != 0 && diffDays != 1
    ensures b.DaysAgo? ==> b.days == diffDays
    ensures b.WeeksAgo? <==> 8 <= diffDays <= 30
    ensures b.WeeksAgo? ==> 7 * (b.weeks - 1) < diffDays <= 7 * b.weeks && 2 <= b.weeks <= 5
    ensures b == Calendar <==> diffDays > 30
  {
    if diffDays == 0 then Today
    else if diffDays == 1 then Yesterday
    else if diffDays <= 7 then DaysAgo(diffDays)
    else if diffDays <= 30 then WeeksAgo((diffDays + 6) / 7)
    else Calendar
  }

  /** `formatDate` given the day difference and the calendar rendering it
      falls back to for older posts. */
  function FormatDate(diffDays: int, calendar: string): (r: string)
    ensures diffDays == 0 ==> r == "오늘"
    ensures diffDays == 1 ==> r == "어제"
    ensures diffDays > 30 ==> r == calendar
    ensures 8 <= diffDays <= 30 ==> EndsWith(r, "주 전") && |r| == 4
    ensures Bucket(diffDays).DaysAgo? ==> r == IntToString(diffDays) + "일 전"
    ensures Bucket(diffDays).WeeksAgo? ==> r == IntToString(Bucket(diffDays).weeks) + "주 전"
  {
    match Bucket(diffDays)
    case Today => "오늘"
    case Yesterday => "어제"
    case DaysAgo(n) => IntToString(n) + "일 전"
    case WeeksAgo(w) => IntToString(w) + "주 전"
    case Calendar => calendar
  }
}
