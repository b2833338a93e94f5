/** The per-file indexing pass of `index.py`: turning a path into a record
    (`get_file_info`), the dedup key (`generate_file_id`), and the walk that
    inserts one row per file into the `files` table (`index_folder`). */
module FileIndex {
  import opened Wrappers
  import Decimal
  import Paths

  // ---------------------------------------------------------------------
  // Collaborators

  /** What PIL and pytesseract report for an image: `img.size` and the
      recognised text. */
  datatype ImageScan = ImageScan(width: nat, height: nat, text: string)

  /** What OpenCV reports for a video: no open capture, an open capture with
      its frame size (already converted by `int(...)`), or an exception. */
  datatype VideoProbe = NotOpened | Opened(width: nat, height: nat) | VideoFault

  /** The outside world the pass consults, one answer per path. `None` from
      `getSize` or `openImage` stands for the call raising; `storeFault`
      says whether storing that path's row raises something other than
      `IntegrityError` (a locked or unwritable database). */
  datatype Env = Env(
    getSize: string -> Option<nat>,
    guessType: string -> Option<string>,
    openImage: string -> Option<ImageScan>,
    openVideo: string -> VideoProbe,
    storeFault: string -> bool)

  // ---------------------------------------------------------------------
  // get_file_info

  /** The dictionary `get_file_info` returns. */
  datatype FileInfo = FileInfo(
    size: nat,
    mimeType: Option<string>,
    filename: string,
    extension: string,
    resolution: Option<(nat, nat)>,
    ocrText: Option<string>)

  /** `mime_type and mime_type.startswith(prefix)`. */
  predicate MimeStartsWith(mime: Option<string>, prefix: string) {
    mime.Some? && |prefix| <= |mime.value| && mime.value[..|prefix|] == prefix
  }

  predicate IsImage(mime: Option<string>) {
    MimeStartsWith(mime, "image")
  }

  /** The `elif` branch: a video type that is not also an image type. */
  predicate IsVideo(mime: Option<string>) {
    !IsImage(mime) && MimeStartsWith(mime, "video")
  }

  /** `get_file_info(path)`; `None` when any step raised. Its properties are
      the lemmas below, kept apart so that the table proofs, which mention
      this function at every step, need not carry them. */
  function GetFileInfo(env: Env, path: string): Option<FileInfo>
  {
    match env.getSize(path)
    case None => None
    case Some(size) =>
      var mime := env.guessType(path);
      var (filename, extension) := Paths.SplitExt(Paths.Basename(path));
      if IsImage(mime) then
        match env.openImage(path)
        case None => None
        case Some(scan) =>
          Some(FileInfo(size, mime, filename, extension, Some((scan.width, scan.height)), Some(scan.text)))
      else if IsVideo(mime) then
        match env.openVideo(path)
        case VideoFault => None
        case NotOpened => Some(FileInfo(size, mime, filename, extension, None, None))
        case Opened(w, h) => Some(FileInfo(size, mime, filename, extension, Some((w, h)), None))
      else
        Some(FileInfo(size, mime, filename, extension, None, None))
  }

  /** Extraction fails exactly when `getsize` raises, or the image branch
      raises, or the video branch raises; no other path yields `None`. */
  lemma ExtractionFailsIff(env: Env, path: string)
    ensures GetFileInfo(env, path).None? <==>
      env.getSize(path).None?
      || (IsImage(env.guessType(path)) && env.openImage(path).None?)
      || (IsVideo(env.guessType(path)) && env.openVideo(path).VideoFault?)
  {
  }

  /** A record carries the file's size and MIME type, and its filename and
      extension put together are the path's basename. */
  lemma RecordNamesFile(env: Env, path: string)
    requires GetFileInfo(env, path).Some?
    ensures var info := GetFileInfo(env, path).value;
      && info.size == env.getSize(path).value
      && info.mimeType == env.guessType(path)
      && info.filename + info.extension == Paths.Basename(path)
  {
    Paths.SplitExtParts(Paths.Basename(path));
  }

  /** Which fields are present follows from the MIME prefix, and with which
      values: an image carries PIL's size and the recognised text, a video
      the frame size when the capture opened and never text, anything else
      neither. */
  lemma FieldsFollowMime(env: Env, path: string)
    requires GetFileInfo(env, path).Some?
    ensures var info := GetFileInfo(env, path).value;
      && (info.ocrText.Some? <==> IsImage(info.mimeType))
      && (info.resolution.Some? <==>
            IsImage(info.mimeType) || (IsVideo(info.mimeType) && env.openVideo(path).Opened?))
      && (IsImage(info.mimeType) ==>
            var scan := env.openImage(path).value;
            info.resolution == Some((scan.width, scan.height)) && info.ocrText == Some(scan.text))
      && (IsVideo(info.mimeType) ==>
            info.resolution == match env.openVideo(path)
                               case Opened(w, h) => Some((w, h))
                               case _ => None)
  {
  }

  // ---------------------------------------------------------------------
  // generate_file_id

  /** How an f-string renders the MIME type: `None` prints as "None". */
  function MimeText(mime: Option<string>): string {
    match mime
    case None => "None"
    case Some(m) => m
  }

  /** The digest's input: size, filename, extension and MIME type rendered
      one after the other with no delimiter. */
  function HashInput(info: FileInfo): (s: string)
    ensures |s| == |Decimal.NatToString(info.size)| + |info.filename| + |info.extension| + |MimeText(info.mimeType)|
  {
    Decimal.NatToString(info.size) + info.filename + info.extension + MimeText(info.mimeType)
  }

  /** `generate_file_id`; `digest` stands for SHA-256 followed by `hexdigest`. */
  function FileId(digest: string -> string, info: FileInfo): string {
    digest(HashInput(info))
  }

  /** The id depends on the four key fields and on nothing else. */
  lemma FileIdOnlyKeyFields(digest: string -> string, a: FileInfo, b: FileInfo)
    requires a.size == b.size && a.filename == b.filename
    requires a.extension == b.extension && a.mimeType == b.mimeType
    ensures FileId(digest, a) == FileId(digest, b)
  {
  }

  /** Two records that differ in exactly one key field have different hash
      inputs (the MIME type compared as rendered). */
  lemma HashInputSeparatesOneField(a: FileInfo, b: FileInfo)
    requires HashInput(a) == HashInput(b)
    ensures a.filename == b.filename && a.extension == b.extension && a.mimeType == b.mimeType
            ==> a.size == b.size
    ensures a.size == b.size && a.extension == b.extension && a.mimeType == b.mimeType
            ==> a.filename == b.filename
    ensures a.size == b.size && a.filename == b.filename && a.mimeType == b.mimeType
            ==> a.extension == b.extension
    ensures a.size == b.size && a.filename == b.filename && a.extension == b.extension
            ==> MimeText(a.mimeType) == MimeText(b.mimeType)
  {
    var sa, sb := Decimal.NatToString(a.size), Decimal.NatToString(b.size);
    var ha, hb := HashInput(a), HashInput(b);
    if a.filename == b.filename && a.extension == b.extension && a.mimeType == b.mimeType {
      assert |sa| == |sb|;
      assert sa == ha[..|sa|] == hb[..|sb|] == sb;
      Decimal.RenderInjective(a.size, b.size);
    }
    if a.size == b.size {
      if a.extension == b.extension && a.mimeType == b.mimeType {
        assert a.filename == ha[|sa|..|sa| + |a.filename|] == hb[|sb|..|sb| + |b.filename|] == b.filename;
      }
      if a.filename == b.filename && a.mimeType == b.mimeType {
        var k := |sa| + |a.filename|;
        assert a.extension == ha[k..k + |a.extension|] == hb[k..k + |b.extension|] == b.extension;
      }
      if a.filename == b.filename && a.extension == b.extension {
        var k := |sa| + |a.filename| + |a.extension|;
        assert MimeText(a.mimeType) == ha[k..] == hb[k..] == MimeText(b.mimeType);
      }
    }
  }

  /** With no delimiter, records that differ in two key fields can share an
      id: size 1 with name "2a" and size 12 with name "a". */
  lemma HashInputCollision(mime: Option<string>, ext: string)
    ensures var a := FileInfo(1, mime, "2a", ext, None, None);
            var b := FileInfo(12, mime, "a", ext, None, None);
            a.size != b.size && HashInput(a) == HashInput(b)
  {
    assert Decimal.NatToString(12) == Decimal.NatToString(1) + "2";
  }

  /** A missing MIME type and the literal type "None" render alike. */
  lemma MimeNoneCollision()
    ensures MimeText(None) == MimeText(Some("None"))
  {
  }

  // ---------------------------------------------------------------------
  // The row written by index_folder

  /** The resolution column: `"<w>x<h>"`. */
  function ResolutionString(w: nat, h: nat): string {
    Decimal.NatToString(w) + "x" + Decimal.NatToString(h)
  }

  /** Reading a resolution column back into its two numbers; only two
      numerals as `str` writes them, around an `x`, are accepted. */
  function ParseResolution(s: string): Option<(nat, nat)> {
    var i := Paths.LastIndexOf(s, 'x');
    if 0 < i < |s| - 1 && Decimal.IsNumeral(s[..i]) && Decimal.IsNumeral(s[i + 1..]) then
      Some((Decimal.ParseNat(s[..i]), Decimal.ParseNat(s[i + 1..])))
    else
      None
  }

  /** The resolution column determines the resolution it was written from. */
  lemma ParseResolutionString(w: nat, h: nat)
    ensures ParseResolution(ResolutionString(w, h)) == Some((w, h))
  {
    var sw, sh := Decimal.NatToString(w), Decimal.NatToString(h);
    var s := ResolutionString(w, h);
    assert s[|sw|] == 'x';
    forall k | |sw| < k < |s| ensures s[k] != 'x' {
      assert s[k] == sh[k - |sw| - 1];
    }
    assert s[..|sw|] == sw && s[|sw| + 1..] == sh;
    Decimal.ParseRendered(w);
    Decimal.ParseRendered(h);
  }

  /** Only the `"<w>x<h>"` text of a size reads back as that size. */
  lemma ParsedResolutionIsString(t: string, w: nat, h: nat)
    requires ParseResolution(t) == Some((w, h))
    ensures t == ResolutionString(w, h)
  {
    var i := Paths.LastIndexOf(t, 'x');
    Decimal.RenderParsed(t[..i]);
    Decimal.RenderParsed(t[i + 1..]);
    assert t == t[..i] + "x" + t[i + 1..];
  }

  /** A size's column text is the one text that reads back as that size. */
  lemma ResolutionStringUnique(w: nat, h: nat)
    ensures forall t :: ParseResolution(t) == Some((w, h)) <==> t == ResolutionString(w, h)
  {
    ParseResolutionString(w, h);
    forall t | ParseResolution(t) == Some((w, h)) ensures t == ResolutionString(w, h) {
      ParsedResolutionIsString(t, w, h);
    }
  }

  /** The resolution column for an optional size: a tuple is always truthy,
      so every present size is rendered, `(0, 0)` included, and the text
      present is `"<w>x<h>"` of that size. */
  function ResolutionText(res: Option<(nat, nat)>): (r: Option<string>)
    ensures r.Some? <==> res.Some?
    ensures r.Some? ==> ParseResolution(r.value) == res
    ensures r.Some? ==> forall t :: ParseResolution(t) == res <==> t == r.value
  {
    match res
    case None => None
    case Some((w, h)) =>
      ResolutionStringUnique(w, h);
      Some(ResolutionString(w, h))
  }

  /** A row of the `files` table. */
  datatype Row = Row(
    id: string,
    filename: string,
    extension: string,
    size: nat,
    mimeType: Option<string>,
    resolution: Option<string>,
    ocrText: Option<string>)

  /** The values the INSERT binds for one record. */
  function MakeRow(digest: string -> string, info: FileInfo): (r: Row)
    ensures r.id == FileId(digest, info)
    ensures r.filename == info.filename && r.extension == info.extension && r.size == info.size
    ensures r.mimeType == info.mimeType && r.ocrText == info.ocrText
    ensures r.resolution == ResolutionText(info.resolution)
    ensures r.resolution.Some? <==> info.resolution.Some?
    ensures r.resolution.Some? ==> ParseResolution(r.resolution.value) == info.resolution
  {
    Row(FileId(digest, info), info.filename, info.extension, info.size, info.mimeType,
        ResolutionText(info.resolution), info.ocrText)
  }

  // ---------------------------------------------------------------------
  // The table

  function Ids(rows: seq<Row>): (ids: seq<string>)
    ensures |ids| == |rows| && forall i :: 0 <= i < |rows| ==> ids[i] == rows[i].id
  {
    seq(|rows|, i requires 0 <= i < |rows| => rows[i].id)
  }

  /** The primary key: no two rows share an id. */
  predicate UniqueIds(rows: seq<Row>) {
    forall i, j :: 0 <= i < j < |rows| ==> rows[i].id != rows[j].id
  }

  /** `SELECT * FROM files WHERE id = ?`: the first row with that id. */
  function Lookup(rows: seq<Row>, id: string): (r: Option<Row>)
    ensures r.Some? <==> id in Ids(rows)
    ensures r.Some? ==> r.value in rows && r.value.id == id
  {
    if rows == [] then None
    else if rows[0].id == id then Some(rows[0])
    else
      assert Ids(rows) == [rows[0].id] + Ids(rows[1..]);
      Lookup(rows[1..], id)
  }

  /** Appending rows leaves the answer for an id that is present unchanged. */
  lemma {:induction false} LookupExtend(rows: seq<Row>, more: seq<Row>, id: string)
    requires id in Ids(rows)
    ensures Lookup(rows + more, id) == Lookup(rows, id)
  {
    if rows[0].id != id {
      assert Ids(rows) == [rows[0].id] + Ids(rows[1..]);
      LookupExtend(rows[1..], more, id);
      assert (rows + more)[1..] == rows[1..] + more;
    }
  }

  /** After appending a row whose id was absent, that id finds that row. */
  lemma {:induction false} LookupAppended(rows: seq<Row>, r: Row)
    requires r.id !in Ids(rows)
    ensures Lookup(rows + [r], r.id) == Some(r)
  {
    if rows != [] {
      assert Ids(rows) == [rows[0].id] + Ids(rows[1..]);
      LookupAppended(rows[1..], r);
      assert (rows + [r])[1..] == rows[1..] + [r];
    }
  }

  // ---------------------------------------------------------------------
  // Inserting a sequence of offered rows, first insert winning

  /** One insert attempt: nothing offered (the file was skipped or storing
      raised), a duplicate id (`IntegrityError`, caught), or a new row. */
  function InsertRow(rows: seq<Row>, offer: Option<Row>): (r: seq<Row>)
    ensures r == rows || (offer.Some? && offer.value.id !in Ids(rows) && r == rows + [offer.value])
    ensures offer.Some? && offer.value.id !in Ids(rows) ==> r == rows + [offer.value]
    ensures offer.Some? ==> offer.value.id in Ids(r)
  {
    match offer
    case None => rows
    case Some(row) =>
      if row.id in Ids(rows) then rows
      else
        assert Ids(rows + [row])[|rows|] == row.id;
        rows + [row]
  }

  /** The table after the insert attempts `offers`, in order. */
  function InsertAll(rows: seq<Row>, offers: seq<Option<Row>>): seq<Row> {
    if offers == [] then rows
    else InsertRow(InsertAll(rows, offers[..|offers| - 1]), offers[|offers| - 1])
  }

  lemma InsertAllSnoc(rows: seq<Row>, offers: seq<Option<Row>>, o: Option<Row>)
    ensures InsertAll(rows, offers + [o]) == InsertRow(InsertAll(rows, offers), o)
  {
    assert (offers + [o])[..|offers|] == offers;
  }

  /** Attempting `a` then `b` is attempting `a + b`. */
  lemma {:induction false} InsertAllAppend(rows: seq<Row>, a: seq<Option<Row>>, b: seq<Option<Row>>)
    ensures InsertAll(rows, a + b) == InsertAll(InsertAll(rows, a), b)
  {
    if b == [] {
      assert a + b == a;
    } else {
      var b' := b[..|b| - 1];
      InsertAllAppend(rows, a, b');
      assert a + b == (a + b') + [b[|b| - 1]];
      InsertAllSnoc(rows, a + b', b[|b| - 1]);
    }
  }

  /** At most one row per id, after every insert attempt. */
  lemma {:induction false} InsertAllKeepsUniqueIds(rows: seq<Row>, offers: seq<Option<Row>>)
    requires UniqueIds(rows)
    ensures UniqueIds(InsertAll(rows, offers))
  {
    if offers != [] {
      InsertAllKeepsUniqueIds(rows, offers[..|offers| - 1]);
    }
  }

  /** Rows are only ever appended: the table before is a prefix of the table
      after, so a stored row is never replaced or removed. */
  lemma {:induction false} InsertAllExtends(rows: seq<Row>, offers: seq<Option<Row>>)
    ensures var after := InsertAll(rows, offers);
            |rows| <= |after| && after[..|rows|] == rows
  {
    if offers != [] {
      InsertAllExtends(rows, offers[..|offers| - 1]);
    }
  }

  /** The first insert wins: an id already in the table keeps its row. */
  lemma FirstInsertWins(rows: seq<Row>, offers: seq<Option<Row>>, id: string)
    requires id in Ids(rows)
    ensures Lookup(InsertAll(rows, offers), id) == Lookup(rows, id)
  {
    var after := InsertAll(rows, offers);
    InsertAllExtends(rows, offers);
    assert after == rows + after[|rows|..];
    LookupExtend(rows, after[|rows|..], id);
  }

  /** An attempt that offers nothing leaves the others as they were. */
  lemma SkippedOfferIsInvisible(rows: seq<Row>, a: seq<Option<Row>>, b: seq<Option<Row>>)
    ensures InsertAll(rows, a + [None] + b) == InsertAll(rows, a + b)
  {
    InsertAllAppend(rows, a + [None], b);
    InsertAllSnoc(rows, a, None);
    InsertAllAppend(rows, a, b);
  }

  /** Every row added is one of the rows offered. */
  lemma {:induction false} NewRowsWereOffered(rows: seq<Row>, offers: seq<Option<Row>>)
    ensures forall k :: |rows| <= k < |InsertAll(rows, offers)| ==> Some(InsertAll(rows, offers)[k]) in offers
  {
    if offers != [] {
      var init := offers[..|offers| - 1];
      NewRowsWereOffered(rows, init);
      InsertAllExtends(rows, init);
      var before := InsertAll(rows, init);
      var after := InsertAll(rows, offers);
      forall k | |rows| <= k < |after| ensures Some(after[k]) in offers {
        if k < |before| {
          assert Some(before[k]) in init;
        } else {
          assert Some(after[k]) == offers[|offers| - 1];
        }
      }
    }
  }

  /** Every id the table held, and the id of every row offered, is in the
      table afterwards. */
  lemma {:induction false} InsertAllCovers(rows: seq<Row>, offers: seq<Option<Row>>)
    ensures var after := InsertAll(rows, offers);
      && (forall id :: id in Ids(rows) ==> id in Ids(after))
      && (forall j :: 0 <= j < |offers| && offers[j].Some? ==> offers[j].value.id in Ids(after))
  {
    if offers != [] {
      var init, last := offers[..|offers| - 1], offers[|offers| - 1];
      InsertAllCovers(rows, init);
      var before := InsertAll(rows, init);
      var after := InsertRow(before, last);
      if after != before {
        assert Ids(after) == Ids(before) + [last.value.id];
      }
      forall j | 0 <= j < |init| ensures offers[j] == init[j] { }
    }
  }

  /** Attempts whose rows are all present already change nothing. */
  lemma {:induction false} InsertAllPresentIsNoOp(rows: seq<Row>, offers: seq<Option<Row>>)
    requires forall j :: 0 <= j < |offers| && offers[j].Some? ==> offers[j].value.id in Ids(rows)
    ensures InsertAll(rows, offers) == rows
  {
    if offers != [] {
      var init := offers[..|offers| - 1];
      forall j | 0 <= j < |init| && init[j].Some? ensures init[j].value.id in Ids(rows) {
        assert init[j] == offers[j];
      }
      InsertAllPresentIsNoOp(rows, init);
    }
  }

  /** Repeating the same attempts leaves the table as one round left it. */
  lemma InsertTwiceIsInsertOnce(rows: seq<Row>, offers: seq<Option<Row>>)
    ensures InsertAll(InsertAll(rows, offers), offers) == InsertAll(rows, offers)
  {
    InsertAllCovers(rows, offers);
    InsertAllPresentIsNoOp(InsertAll(rows, offers), offers);
  }

  // ---------------------------------------------------------------------
  // index_folder, as a function of the paths visited

  /** Extraction succeeded and storing the row did not raise. */
  predicate Storable(env: Env, path: string) {
    GetFileInfo(env, path).Some? && !env.storeFault(path)
  }

  /** What visiting `path` offers to the table. */
  function Offer(env: Env, digest: string -> string, path: string): Option<Row> {
    if Storable(env, path) then Some(MakeRow(digest, GetFileInfo(env, path).value)) else None
  }

  /** `f` applied to every element, in order. */
  function Map<A, B>(f: A -> B, s: seq<A>): (r: seq<B>)
    ensures |r| == |s| && forall i :: 0 <= i < |s| ==> r[i] == f(s[i])
  {
    seq(|s|, i requires 0 <= i < |s| => f(s[i]))
  }

  lemma MapAppend<A, B>(f: A -> B, a: seq<A>, b: seq<A>)
    ensures Map(f, a + b) == Map(f, a) + Map(f, b)
  {
    forall i | 0 <= i < |a + b| ensures Map(f, a + b)[i] == (Map(f, a) + Map(f, b))[i] {
      if i < |a| { assert (a + b)[i] == a[i]; } else { assert (a + b)[i] == b[i - |a|]; }
    }
  }

  /** What visiting each of `paths` offers to the table. */
  function Offers(env: Env, digest: string -> string, paths: seq<string>): seq<Option<Row>> {
    Map(p => Offer(env, digest, p), paths)
  }

  lemma OffersAppend(env: Env, digest: string -> string, a: seq<string>, b: seq<string>)
    ensures Offers(env, digest, a + b) == Offers(env, digest, a) + Offers(env, digest, b)
  {
    MapAppend(p => Offer(env, digest, p), a, b);
  }

  /** The table after visiting `paths` in order, starting from `rows`. */
  function IndexAll(env: Env, digest: string -> string, rows: seq<Row>, paths: seq<string>): seq<Row> {
    InsertAll(rows, Offers(env, digest, paths))
  }

  /** The table keeps at most one row per id through a whole pass. */
  lemma IndexKeepsUniqueIds(env: Env, digest: string -> string, rows: seq<Row>, paths: seq<string>)
    requires UniqueIds(rows)
    ensures UniqueIds(IndexAll(env, digest, rows, paths))
  {
    InsertAllKeepsUniqueIds(rows, Offers(env, digest, paths));
  }

  /** A file whose extraction failed, or whose storing raised, adds no row
      and does not disturb the files around it. */
  lemma FailedFileAddsNoRow(env: Env, digest: string -> string, rows: seq<Row>, a: seq<string>, p: string, b: seq<string>)
    requires !Storable(env, p)
    ensures IndexAll(env, digest, rows, a + [p] + b) == IndexAll(env, digest, rows, a + b)
  {
    var oa, ob := Offers(env, digest, a), Offers(env, digest, b);
    OffersAppend(env, digest, a, [p]);
    OffersAppend(env, digest, a + [p], b);
    OffersAppend(env, digest, a, b);
    assert Offers(env, digest, [p]) == [None];
    SkippedOfferIsInvisible(rows, oa, ob);
  }

  /** Every row a pass adds is the row built from the record of some visited
      path whose extraction succeeded and whose storing did not raise. */
  lemma NewRowsComeFromStorablePaths(env: Env, digest: string -> string, rows: seq<Row>, paths: seq<string>)
    ensures forall k :: |rows| <= k < |IndexAll(env, digest, rows, paths)| ==>
      exists j :: 0 <= j < |paths| && Storable(env, paths[j])
                  && IndexAll(env, digest, rows, paths)[k] == MakeRow(digest, GetFileInfo(env, paths[j]).value)
  {
    var offers := Offers(env, digest, paths);
    var after := IndexAll(env, digest, rows, paths);
    assert after == InsertAll(rows, offers);
    NewRowsWereOffered(rows, offers);
    forall k | |rows| <= k < |after|
      ensures exists j :: 0 <= j < |paths| && Storable(env, paths[j])
                          && after[k] == MakeRow(digest, GetFileInfo(env, paths[j]).value)
    {
      assert Some(after[k]) in offers;
      var j :| 0 <= j < |offers| && offers[j] == Some(after[k]);
      assert Offer(env, digest, paths[j]) == Some(after[k]);
      assert Storable(env, paths[j]);
      assert after[k] == MakeRow(digest, GetFileInfo(env, paths[j]).value);
    }
  }

  /** The first insert wins across a pass: an id already stored keeps its
      row. */
  lemma StoredRowSurvivesPass(env: Env, digest: string -> string, rows: seq<Row>, paths: seq<string>, id: string)
    requires id in Ids(rows)
    ensures Lookup(IndexAll(env, digest, rows, paths), id) == Lookup(rows, id)
  {
    FirstInsertWins(rows, Offers(env, digest, paths), id);
  }

  /** After a pass, every visited storable path has a row with its id (its
      own, or an earlier one with the same id). */
  lemma StorablePathsAreIndexed(env: Env, digest: string -> string, rows: seq<Row>, paths: seq<string>)
    ensures forall j :: 0 <= j < |paths| && Storable(env, paths[j]) ==>
      FileId(digest, GetFileInfo(env, paths[j]).value) in Ids(IndexAll(env, digest, rows, paths))
  {
    var offers := Offers(env, digest, paths);
    InsertAllCovers(rows, offers);
    forall j | 0 <= j < |paths| && Storable(env, paths[j])
      ensures FileId(digest, GetFileInfo(env, paths[j]).value) in Ids(IndexAll(env, digest, rows, paths))
    {
      assert offers[j].Some?;
    }
  }

  /** The row a storable path inserts under a new id holds that path's
      record: the SELECT by the id finds the record's name, extension, size,
      type and text, and a resolution column that reads back as the record's
      resolution. */
  lemma InsertedRowHoldsRecord(env: Env, digest: string -> string, rows: seq<Row>, path: string)
    requires Storable(env, path)
    requires FileId(digest, GetFileInfo(env, path).value) !in Ids(rows)
    ensures var info := GetFileInfo(env, path).value;
      var found := Lookup(InsertRow(rows, Offer(env, digest, path)), FileId(digest, info));
      && found.Some?
      && found.value.filename == info.filename && found.value.extension == info.extension
      && found.value.size == info.size && found.value.mimeType == info.mimeType
      && found.value.ocrText == info.ocrText
      && (found.value.resolution.Some? <==> info.resolution.Some?)
      && (found.value.resolution.Some? ==> ParseResolution(found.value.resolution.value) == info.resolution)
  {
    var row := MakeRow(digest, GetFileInfo(env, path).value);
    assert InsertRow(rows, Offer(env, digest, path)) == rows + [row];
    LookupAppended(rows, row);
  }

  /** Re-running the pass over the same paths, with the same collaborator
      answers, leaves the table exactly as one run left it. */
  lemma IndexTwiceIsIndexOnce(env: Env, digest: string -> string, rows: seq<Row>, paths: seq<string>)
    ensures var once := IndexAll(env, digest, rows, paths);
            IndexAll(env, digest, once, paths) == once
  {
    InsertTwiceIsInsertOnce(rows, Offers(env, digest, paths));
  }

  // ---------------------------------------------------------------------
  // The walk

  /** The paths one `os.walk` entry yields: each listed name joined to its
      directory. */
  function DirPaths(root: string, files: seq<string>): (ps: seq<string>)
    ensures |ps| == |files| && forall i :: 0 <= i < |files| ==> ps[i] == Paths.Join(root, files[i])
  {
    seq(|files|, i requires 0 <= i < |files| => Paths.Join(root, files[i]))
  }

  /** The name `os.walk` listed is the name the record keeps: for a path of
      a walk entry whose extraction succeeded, filename and extension put
      together are the listed name. */
  lemma WalkedNameIsRecorded(env: Env, root: string, files: seq<string>, i: nat)
    requires i < |files| && Paths.IsPlainName(files[i])
    requires GetFileInfo(env, DirPaths(root, files)[i]).Some?
    ensures var info := GetFileInfo(env, DirPaths(root, files)[i]).value;
      info.filename + info.extension == files[i]
  {
    RecordNamesFile(env, DirPaths(root, files)[i]);
    Paths.BasenameOfJoin(root, files[i]);
  }

  /** All paths of the walk, directory by directory, in walk order. */
  function WalkPaths(walk: seq<(string, seq<string>)>): seq<string> {
    if walk == [] then []
    else WalkPaths(walk[..|walk| - 1]) + DirPaths(walk[|walk| - 1].0, walk[|walk| - 1].1)
  }

  datatype InsertOutcome = Inserted | IntegrityError

  /** The `files` table of the database file; it outlives a single run. */
  class FilesTable {
    var rows: seq<Row>

    ghost predicate Valid()
      reads this
    {
      UniqueIds(rows)
    }

    /** A database with an empty `files` table. */
    constructor ()
      ensures Valid() && rows == []
    {
      rows := [];
    }

    /** `INSERT INTO files ...`: refused with `IntegrityError` when the id is
        taken, else the row is appended and the SELECT by id finds it. */
    method Insert(row: Row) returns (outcome: InsertOutcome)
      requires Valid()
      modifies this
      ensures Valid()
      ensures outcome == (if row.id in Ids(old(rows)) then IntegrityError else Inserted)
      ensures rows == if outcome == Inserted then old(rows) + [row] else old(rows)
      ensures Lookup(rows, row.id) == if outcome == Inserted then Some(row) else old(Lookup(rows, row.id))
    {
      if row.id in Ids(rows) {
        outcome := IntegrityError;
      } else {
        LookupAppended(rows, row);
        rows := rows + [row];
        outcome := Inserted;
      }
    }

    /** One iteration of the inner loop of `index_folder`: extract, skip the
        file on failure, build the row, insert it; `IntegrityError` and any
        other storage error are caught and leave the table as it was. */
    method IndexFile(env: Env, digest: string -> string, path: string)
      requires Valid()
      modifies this
      ensures Valid()
      ensures rows == InsertRow(old(rows), Offer(env, digest, path))
    {
      var info := GetFileInfo(env, path);
      if info.None? {
        return;
      }
      var row := MakeRow(digest, info.value);
      if env.storeFault(path) {
        return;
      }
      var _ := Insert(row);
    }

    /** The inner loop: every name one `os.walk` entry lists, in order. */
    method IndexDirectory(env: Env, digest: string -> string, root: string, files: seq<string>)
      requires Valid()
      modifies this
      ensures Valid()
      ensures rows == IndexAll(env, digest, old(rows), DirPaths(root, files))
    {
      var j := 0;
      assert DirPaths(root, files[..0]) == [];
      while j < |files|
        invariant 0 <= j <= |files|
        invariant Valid()
        invariant rows == IndexAll(env, digest, old(rows), DirPaths(root, files[..j]))
      {
        var path := Paths.Join(root, files[j]);
        IndexFile(env, digest, path);
        ghost var before := DirPaths(root, files[..j]);
        assert DirPaths(root, files[..j + 1]) == before + [path];
        OffersAppend(env, digest, before, [path]);
        InsertAllSnoc(old(rows), Offers(env, digest, before), Offer(env, digest, path));
        j := j + 1;
      }
      assert files[..|files|] == files;
    }

    /** `index_folder`: the directories of the walk one after the other. */
    method IndexFolder(env: Env, digest: string -> string, walk: seq<(string, seq<string>)>)
      requires Valid()
      modifies this
      ensures Valid()
      ensures rows == IndexAll(env, digest, old(rows), WalkPaths(walk))
    {
      var i := 0;
      while i < |walk|
        invariant 0 <= i <= |walk|
        invariant Valid()
        invariant rows == IndexAll(env, digest, old(rows), WalkPaths(walk[..i]))
      {
        var (root, files) := walk[i];
        IndexDirectory(env, digest, root, files);
        ghost var done := WalkPaths(walk[..i]);
        assert walk[..i + 1][..i] == walk[..i];
        assert WalkPaths(walk[..i + 1]) == done + DirPaths(root, files);
        OffersAppend(env, digest, done, DirPaths(root, files));
        InsertAllAppend(old(rows), Offers(env, digest, done), Offers(env, digest, DirPaths(root, files)));
        i := i + 1;
      }
      assert walk[..|walk|] == walk;
    }
  }
}
