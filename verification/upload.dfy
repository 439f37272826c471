/** The image upload endpoint `POST` of src/app/api/upload/route.ts: the
    checks on the uploaded file, the stored file name and the returned url.
    The clock, the split of the file name into base name and extension, and
    the outcome of the write are arguments; the `public` directory is the set
    of site paths that exist in it. */
module UploadRoute {
  import opened Wrappers
  import opened JsString
  import Utils
  import WritePage

  /** The uploaded file: its base name and extension (as `path.basename`
      and `path.extname` split its name), its size in bytes and its MIME
      type. */
  datatype Upload = Upload(baseName: string, extension: string, size: int, mimeType: string)

  /** The form data: unreadable, or read with or without a `file` entry. */
  datatype Request = Unreadable | Form(file: Option<Upload>)

  /** The largest accepted size: 5 MiB. */
  const MaxSize: int := 5 * 1024 * 1024

  /** The accepted MIME types. */
  const AllowedTypes: seq<string> := ["image/jpeg", "image/png", "image/gif", "image/webp"]

  /** The characters the file name keeps: `[a-zA-Z0-9-_]`. */
  predicate SafeChar(c: char) {
    ('a' <= c <= 'z') || ('A' <= c <= 'Z') || ('0' <= c <= '9') || c == '-' || c == '_'
  }

  /** The number of UTF-16 code units of a string: two for a character
      outside the Basic Multilingual Plane. */
  function Utf16Length(s: string): nat {
    if s == [] then 0 else (if s[0] as int > 0xFFFF then 2 else 1) + Utf16Length(s[1..])
  }

  /** `replace(/[^a-zA-Z0-9-_]/g, "_")`: the pattern works on UTF-16 code
      units, so a character outside the Basic Multilingual Plane (two units)
      becomes two underscores. */
  function SafeFileName(base: string): (safe: string)
    ensures |safe| == Utf16Length(base)
    ensures forall i :: 0 <= i < |safe| ==> SafeChar(safe[i])
    ensures (forall i :: 0 <= i < |base| ==> SafeChar(base[i])) ==> safe == base
  {
    if base == [] then []
    else
      var c := base[0];
      var head := if SafeChar(c) then [c] else if c as int > 0xFFFF then "__" else "_";
      var rest := SafeFileName(base[1..]);
      var r := head + rest;
      assert forall i :: |head| <= i < |r| ==> r[i] == rest[i - |head|];
      r
  }

  /** Within the Basic Multilingual Plane the name keeps its length and
      every character in its place: a safe one as it is, any other as `_`. */
  lemma {:induction false} SafeFileNameInPlace(base: string)
    requires forall i :: 0 <= i < |base| ==> base[i] as int <= 0xFFFF
    ensures |SafeFileName(base)| == |base|
    ensures forall i :: 0 <= i < |base| ==> SafeFileName(base)[i] == if SafeChar(base[i]) then base[i] else '_'
    decreases |base|
  {
    if base != [] {
      SafeFileNameInPlace(base[1..]);
      var rest := SafeFileName(base[1..]);
      assert forall i :: 1 <= i < |base| ==> SafeFileName(base)[i] == rest[i - 1];
    }
  }

  /** The stored file name: `${timestamp}_${safeFileName}${fileExtension}`. */
  function StoredName(timestamp: nat, baseName: string, extension: string): (name: string)
    ensures StartsWith(name, NatToString(timestamp) + "_")
    ensures EndsWith(name, extension)
    ensures |name| == |NatToString(timestamp)| + 1 + Utf16Length(baseName) + |extension|
    ensures name[|NatToString(timestamp)| + 1..|name| - |extension|] == SafeFileName(baseName)
  {
    var prefix := NatToString(timestamp) + "_";
    var name := prefix + SafeFileName(baseName) + extension;
    assert name[..|prefix|] == prefix;
    assert name[|name| - |extension|..] == extension;
    assert name[|prefix|..|name| - |extension|] == SafeFileName(baseName);
    name
  }

  /** The url the reply carries: `/images/${fileName}`. */
  function ImageUrl(name: string): (url: string)
    ensures StartsWith(url, "/images/") && url[8..] == name
  {
    "/images/" + name
  }

  /** The reply: its status and, on success, the url and the file name. */
  datatype Reply = Reply(status: int, url: Option<string>, fileName: Option<string>)

  /** The reply and the `public` directory afterwards. */
  datatype Outcome = Outcome(reply: Reply, publicFiles: set<string>)

  /** Why a file is refused, in the order the checks run. */
  function Rejection(file: Option<Upload>): (r: Option<string>)
    ensures file.None? ==> r == Some("No file uploaded")
    ensures file.Some? && file.value.size > MaxSize ==> r == Some("File size too large. Maximum 5MB allowed.")
    ensures file.Some? && file.value.size <= MaxSize && file.value.mimeType !in AllowedTypes ==>
              r == Some("Unsupported file type. Only JPEG, PNG, GIF, and WebP are allowed.")
    ensures r.None? <==> file.Some? && file.value.size <= MaxSize && file.value.mimeType in AllowedTypes
  {
    match file
    case None => Some("No file uploaded")
    case Some(f) =>
      if f.size > MaxSize then Some("File size too large. Maximum 5MB allowed.")
      else if f.mimeType !in AllowedTypes then Some("Unsupported file type. Only JPEG, PNG, GIF, and WebP are allowed.")
      else None
  }

  /** `POST` at time `timestamp` (milliseconds): a refused file gets 400
      and nothing is written; an accepted one is written under
      `public/images`, 500 if that fails; the reply names the new file. */
  function Post(request: Request, timestamp: nat, publicFiles: set<string>, writeOk: bool): (out: Outcome)
    ensures request.Unreadable? ==> out == Outcome(Reply(500, None, None), publicFiles)
    ensures request.Form? && Rejection(request.file).Some? ==> out == Outcome(Reply(400, None, None), publicFiles)
    ensures out.reply.status == 200 <==> request.Form? && Rejection(request.file).None? && writeOk
    ensures out.reply.status == 200 ==>
              var f := request.file.value;
              var name := StoredName(timestamp, f.baseName, f.extension);
              && out.reply.fileName == Some(name)
              && out.reply.url == Some(ImageUrl(name))
              && out.publicFiles == publicFiles + {ImageUrl(name)}
    ensures out.reply.status != 200 ==> out.publicFiles == publicFiles
  {
    match request
    case Unreadable => Outcome(Reply(500, None, None), publicFiles)
    case Form(file) =>
      if Rejection(file).Some? then Outcome(Reply(400, None, None), publicFiles)
      else
        var f := file.value;
        var name := StoredName(timestamp, f.baseName, f.extension);
        if !writeOk then Outcome(Reply(500, None, None), publicFiles)
        else Outcome(Reply(200, Some(ImageUrl(name)), Some(name)), publicFiles + {ImageUrl(name)})
  }

  /** A file of exactly 5 MiB is accepted; one byte more is refused. */
  lemma SizeLimitIsInclusive(baseName: string, extension: string, mimeType: string)
    requires mimeType in AllowedTypes
    ensures Rejection(Some(Upload(baseName, extension, MaxSize, mimeType))).None?
    ensures Rejection(Some(Upload(baseName, extension, MaxSize + 1, mimeType))).Some?
  {
  }

  /** The number of decimal digits a string starts with. */
  function DigitRun(s: string): nat {
    if s != [] && IsDigit(s[0]) then 1 + DigitRun(s[1..]) else 0
  }

  /** Digits followed by something that is not a digit: the run is exactly
      the digits. */
  lemma {:induction false} DigitRunOf(d: string, rest: string)
    requires forall i :: 0 <= i < |d| ==> IsDigit(d[i])
    requires rest != [] && !IsDigit(rest[0])
    ensures DigitRun(d + rest) == |d|
    decreases |d|
  {
    if d != [] {
      assert (d + rest)[1..] == d[1..] + rest;
      DigitRunOf(d[1..], rest);
    } else {
      assert d + rest == rest;
    }
  }

  /** File names carry the upload time in front of the first `_`, so two
      uploads at different times never get the same name. */
  lemma DistinctTimestampsDistinctNames(t1: nat, t2: nat, b1: string, e1: string, b2: string, e2: string)
    requires t1 != t2
    ensures StoredName(t1, b1, e1) != StoredName(t2, b2, e2)
  {
    StoredNameTimestamp(t1, b1, e1);
    StoredNameTimestamp(t2, b2, e2);
    NatToStringRoundTrip(t1);
    NatToStringRoundTrip(t2);
  }

  /** The leading digits of a stored name are the timestamp's. */
  lemma StoredNameTimestamp(t: nat, baseName: string, extension: string)
    ensures var name, digits := StoredName(t, baseName, extension), NatToString(t);
            DigitRun(name) == |digits| && name[..|digits|] == digits
  {
    var digits, rest := NatToString(t), "_" + SafeFileName(baseName) + extension;
    assert StoredName(t, baseName, extension) == digits + rest;
    DigitRunOf(digits, rest);
  }

  /** The url of an accepted upload, inserted into the editor's content,
      is the thumbnail of the post: it names a file that now exists in the
      public directory. The extension must not break the Markdown link. */
  lemma UploadedImageBecomesThumbnail(f: Upload, timestamp: nat, publicFiles: set<string>, content: string, alt: string)
    requires Rejection(Some(f)).None?
    requires WritePage.PlainUrl(f.extension)
    requires Utils.FirstImage(content).None? && WritePage.PlainAlt(alt)
    ensures var out := Post(Form(Some(f)), timestamp, publicFiles, true);
            && out.reply.url.Some?
            && Utils.ExtractThumbnail(WritePage.InsertImage(content, out.reply.url.value, alt), out.publicFiles) == out.reply.url
  {
    var url := ImageUrl(StoredName(timestamp, f.baseName, f.extension));
    ImageUrlPlain(timestamp, f.baseName, f.extension);
    assert url[..1] == "/";
    WritePage.InsertedImageIsThumbnail(content, url, alt, publicFiles + {url});
  }

  /** The url of a stored image has no line break and no `)` unless its
      extension brings one. */
  lemma ImageUrlPlain(timestamp: nat, baseName: string, extension: string)
    requires WritePage.PlainUrl(extension)
    ensures WritePage.PlainUrl(ImageUrl(StoredName(timestamp, baseName, extension)))
  {
    var digits, safe := NatToString(timestamp), SafeFileName(baseName);
    var prefix := digits + "_";
    assert WritePage.PlainUrl(digits);
    assert WritePage.PlainUrl(safe);
    PlainConcat(digits, "_");
    PlainConcat(prefix, safe);
    PlainConcat(prefix + safe, extension);
    var name := StoredName(timestamp, baseName, extension);
    assert name == prefix + safe + extension;
    PlainConcat("/images/", name);
  }

  lemma PlainConcat(a: string, b: string)
    requires WritePage.PlainUrl(a) && WritePage.PlainUrl(b)
    ensures WritePage.PlainUrl(a + b)
  {
    assert forall i :: |a| <= i < |a + b| ==> (a + b)[i] == b[i - |a|];
  }
}
