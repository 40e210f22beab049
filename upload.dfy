/** Admission of `POST /upload`: the total-size quota, the MIME allow-list,
    the stored filename, the status each way of finishing answers with, and
    the figure `calculateSpeed` reports. */
module Upload {
  import opened Common

  const GiB: nat := 1024 * 1024 * 1024

  /** Cap on the sizes of all stored files plus the incoming request. */
  const MaxTotalSize: nat := 16 * GiB

  /** Per-file cap handed to the multipart parser; exceeding it ends the
      upload with the error code `LimitFileSize`. */
  const MaxFileSize: nat := 16 * GiB

  const LimitFileSize := "LIMIT_FILE_SIZE"

  /** The directory scan of the quota check: `None` when listing the
      directory fails, otherwise one entry per file, `None` when that file's
      `stat` fails. */
  type Listing = Option<seq<Option<nat>>>

  predicate AllStatted(files: seq<Option<nat>>) {
    forall i :: 0 <= i < |files| ==> files[i].Some?
  }

  /** The sum of the sizes of the files. */
  function TotalSize(files: seq<Option<nat>>): nat
    requires AllStatted(files)
    decreases |files|
  {
    if files == [] then 0
    else TotalSize(files[..|files| - 1]) + files[|files| - 1].value
  }

  /** `parseInt(req.headers["content-length"] || "0", 10)`: a missing
      header counts as 0. */
  function ContentLength(header: Option<nat>): nat {
    match header
    case None => 0
    case Some(n) => n
  }

  /** The comparison of the quota check: landing exactly on the cap is
      allowed. */
  predicate WithinQuota(total: nat, contentLength: nat) {
    total + contentLength <= MaxTotalSize
  }

  /** The quota check lets the request through: every file could be
      measured and the total, request included, is within the cap. */
  predicate QuotaPasses(listing: Listing, header: Option<nat>) {
    && listing.Some?
    && AllStatted(listing.value)
    && WithinQuota(TotalSize(listing.value), ContentLength(header))
  }

  /** The verdict of the quota middleware: pass to the upload handler, or
      answer with a status. */
  datatype Gate = Proceed | Refuse(status: int)

  /** `checkTotalFileSize`: add up the sizes of the stored files, then refuse
      with 413 when they and the request's `content-length` exceed the cap;
      a failing directory listing or `stat` answers 500. */
  method CheckTotalFileSize(listing: Listing, header: Option<nat>) returns (g: Gate)
    ensures g == Refuse(500) <==> listing.None? || !AllStatted(listing.value)
    ensures g == Proceed <==> QuotaPasses(listing, header)
    ensures g == Proceed || g == Refuse(413) || g == Refuse(500)
  {
    if listing.None? {
      return Refuse(500);
    }
    var files := listing.value;
    var total: nat := 0;
    var i := 0;
    while i < |files|
      invariant 0 <= i <= |files|
      invariant AllStatted(files[..i])
      invariant total == TotalSize(files[..i])
    {
      if files[i].None? {
        return Refuse(500);
      }
      assert files[..i + 1][..i] == files[..i];
      total := total + files[i].value;
      i := i + 1;
    }
    assert files[..i] == files;
    if total + ContentLength(header) > MaxTotalSize {
      return Refuse(413);
    }
    return Proceed;
  }

  /** `fileFilter`'s allow-list. */
  const AllowedMimeTypes: seq<string> := ["video/mp4", "video/avi", "video/x-matroska"]

  predicate AllowedType(mimetype: string) {
    mimetype in AllowedMimeTypes
  }

  /** How the upload ends: the parser calls back with an error (with its
      code, if it has one), calls back without error and without a file, or
      calls back with a file it stored at millisecond `now` under the
      client's `originalName`; or invoking the parser throws. */
  datatype Completion =
    | Errored(code: Option<string>)
    | NoFile
    | Stored(now: nat, originalName: string)
    | Threw

  /** `fileFilter`: an allowed type lets the upload go on; any other type
      ends it with an error that carries no code. */
  function FileFilter(mimetype: string): Option<Completion> {
    if AllowedType(mimetype) then None else Some(Errored(None))
  }

  datatype Response = Response(status: int, filename: Option<string>)

  /** The answer to each way of finishing an upload; a stored file is
      answered with the name the storage rule gave it. */
  function Respond(c: Completion): (r: Response)
    ensures r.status == 200 <==> c.Stored?
    ensures c.Stored? ==> r.filename == Some(StoredName(c.now, c.originalName))
    ensures !c.Stored? ==> r.filename == None
    ensures r.status == 413 <==> c == Errored(Some(LimitFileSize))
    ensures r.status == 500 <==> c.Threw?
    ensures r.status == 400 <==> c.NoFile? || (c.Errored? && c.code != Some(LimitFileSize))
  {
    match c
    case Errored(code) => if code == Some(LimitFileSize) then Response(413, None) else Response(400, None)
    case NoFile => Response(400, None)
    case Stored(now, name) => Response(200, Some(StoredName(now, name)))
    case Threw => Response(500, None)
  }

  /** Only the three listed types pass the filter, compared exactly (no case
      folding); every other type ends the upload with 400. */
  lemma FileFilterDecides(mimetype: string)
    ensures FileFilter(mimetype) == None <==>
      mimetype == "video/mp4" || mimetype == "video/avi" || mimetype == "video/x-matroska"
    ensures FileFilter(mimetype).Some? ==> Respond(FileFilter(mimetype).value) == Response(400, None)
    ensures FileFilter("video/MP4").Some? && FileFilter("video/quicktime").Some?
  {
  }

  predicate IsDigit(c: char) {
    '0' <= c <= '9'
  }

  function Digit(d: nat): (c: char)
    requires d < 10
    ensures IsDigit(c)
  {
    ('0' as int + d) as char
  }

  /** `String(n)` for a whole number: its decimal digits, no leading zero. */
  function Decimal(n: nat): (s: string)
    ensures |s| > 0
    ensures forall i :: 0 <= i < |s| ==> IsDigit(s[i])
    ensures n >= 10 ==> |s| >= 2
    ensures n >= 10 ==> s[0] != '0'
    decreases n
  {
    if n < 10 then [Digit(n)] else Decimal(n / 10) + [Digit(n % 10)]
  }

  /** Different numbers have different decimal forms. */
  lemma {:induction false} DecimalInjective(a: nat, b: nat)
    requires Decimal(a) == Decimal(b)
    ensures a == b
    decreases a
  {
    if a >= 10 && b >= 10 {
      var s := Decimal(a);
      assert Decimal(a / 10) == s[..|s| - 1] == Decimal(b / 10);
      DecimalInjective(a / 10, b / 10);
    }
  }

  /** The multer storage `filename` rule: the upload time in milliseconds,
      a dash, and the client's original file name. */
  function StoredName(now: nat, originalName: string): string {
    Decimal(now) + "-" + originalName
  }

  /** The part of `s` before the first `c`. */
  function Before(s: string, c: char): (r: string)
    ensures |r| <= |s|
    decreases |s|
  {
    if s == [] || s[0] == c then [] else [s[0]] + Before(s[1..], c)
  }

  /** The stored name splits back at its first dash into the timestamp and
      the original name. */
  function SplitStoredName(s: string): (string, string) {
    var stamp := Before(s, '-');
    (stamp, if |stamp| < |s| then s[|stamp| + 1..] else "")
  }

  lemma {:induction false} BeforeSeparator(d: string, c: char, rest: string)
    requires c !in d
    ensures Before(d + [c] + rest, c) == d
    decreases |d|
  {
    if d != [] {
      assert (d + [c] + rest)[1..] == d[1..] + [c] + rest;
      BeforeSeparator(d[1..], c, rest);
      assert d == [d[0]] + d[1..];
    }
  }

  /** Splitting a stored name gives back the decimal timestamp and the
      original name, whatever dashes the original name contains. */
  lemma StoredNameSplits(now: nat, originalName: string)
    ensures SplitStoredName(StoredName(now, originalName)) == (Decimal(now), originalName)
  {
    var d := Decimal(now);
    assert forall i :: 0 <= i < |d| ==> d[i] != '-';
    BeforeSeparator(d, '-', originalName);
    assert StoredName(now, originalName)[|d| + 1..] == originalName;
  }

  /** Two uploads at different milliseconds, or of different names, get
      different stored names. */
  lemma StoredNameInjective(t1: nat, n1: string, t2: nat, n2: string)
    requires StoredName(t1, n1) == StoredName(t2, n2)
    ensures t1 == t2 && n1 == n2
  {
    StoredNameSplits(t1, n1);
    StoredNameSplits(t2, n2);
    DecimalInjective(t1, t2);
  }

  /** `Math.round`: to the nearest whole number, halves upwards. */
  function RoundHalfUp(x: real): int {
    (x + 0.5).Floor
  }

  /** The figure `calculateSpeed` reports once time has advanced: the change
      in chunk length since the previous sample, per second, in KiB,
      rounded. */
  function SpeedKBps(chunkLength: int, lastBytes: int, elapsedMs: int): int
    requires elapsedMs > 0
  {
    var seconds := elapsedMs as real / 1000.0;
    RoundHalfUp((chunkLength - lastBytes) as real / seconds / 1024.0)
  }

  /** The speed sample compares this chunk's length with the previous
      chunk's, not with a byte total: equal-sized chunks read as 0. */
  lemma EqualChunksReadZero(chunkLength: int, elapsedMs: int)
    requires elapsedMs > 0
    ensures SpeedKBps(chunkLength, chunkLength, elapsedMs) == 0
  {
  }
}
