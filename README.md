# ocr_search, modelled in Dafny

This project models the two pieces of sequential logic in the `ocr_search`
repository.

- **The indexing pass of `index.py`.** A path becomes a file record
  (`get_file_info`). The record gets a dedup id (`generate_file_id`). The walk
  inserts one row per file into the `files` table, whose primary key is that
  id (`index_folder`).
- **The query filter of `ocr_search.py`.** `search_ocr_text` keeps the rows
  that have recognised text, splits the query into whitespace-separated words,
  and returns the media path of every row whose text contains one of the words.

Modules, one per concern:

- `Wrappers` (`wrappers.dfy`): `Option`, standing in for Python's `None`.
- `Decimal` (`decimal.dfy`): how an f-string renders a non-negative `int`, and
  the inverse parse.
- `Paths` (`paths.dfy`): `os.path.join`, `basename` and `splitext`, following
  Python's Windows path rules (`ntpath`), because both hard-wired folders are
  Windows paths.
- `Text` (`text.dfy`): `str.split()` with no argument, and the substring test
  `word in text`.
- `FileIndex` (`file_index.dfy`): `index.py`. The records and the id are pure
  functions. The table is a class `FilesTable` holding `rows: seq<Row>` in
  insertion order, with the primary key as its invariant. `index_folder` is a
  pair of nested loops, proved against the function `IndexAll`.
- `OcrSearch` (`ocr_search.dfy`): `ocr_search.py`, as pure functions and lemmas.

Collaborators become parameters. Dafny functions need bodies, so they cannot be
left uninterpreted.

- `Env.getSize` stands for `os.path.getsize`.
- `Env.guessType` stands for `mimetypes.guess_type`.
- `Env.openImage` stands for PIL together with pytesseract.
- `Env.openVideo` stands for OpenCV.
- `Env.storeFault` says whether storing a path's row raises something other
  than `IntegrityError` before the commit completes. An error raised after the
  commit (by the checking `SELECT` or a `print`) leaves the row stored, so it
  is modelled as `storeFault` false.
- `digest` stands for SHA-256 followed by `hexdigest`.
- The walk is a sequence of `(root, names)` entries, the way `os.walk` yields
  them.

Each collaborator gives one answer per path. A collaborator that raises is
shown by `None` (or by `VideoFault`).

Three behaviours of the code that a reader might not expect:

- The search tests substring containment (`word in text`), not word equality.
  A query "total" therefore matches a text that only says "totally"
  (`OcrSearch.SubstringNotToken`).
- The id's input joins the four fields with no delimiter. Records that differ
  in exactly one key field, with the MIME type compared as rendered, always get
  different hash inputs. Records that differ in two fields can collide: size 1 with name "2a" and size 12 with
  name "a" (`FileIndex.HashInputCollision`).
- A missing MIME type is rendered as "None" in the hash input
  (`FileIndex.MimeNoneCollision`).

## Model

| member | source | states |
|---|---|---|
| `Decimal.NatToString` | index.py:49 | the size rendered as an f-string does it: a non-empty string of digits with no leading zero |
| `Decimal.ParseRendered` | index.py:49 | parsing the rendered numeral gives the number back |
| `Decimal.RenderInjective` | index.py:49 | distinct sizes render as distinct numerals |
| `Decimal.RenderParsed` | index.py:70 | every numeral without a leading zero is the rendering of the number it denotes |
| `Paths.Join` | index.py:59 | `os.path.join(root, file)` puts a `\` between a directory and a name exactly when the directory is non-empty and does not already end with a separator; otherwise it is the plain concatenation |
| `Paths.Basename` | index.py:20 | `os.path.basename`: what follows the last separator; its properties are `LastSepIndex`, `BasenameIsLastComponent` and `BasenameOfJoin` |
| `Paths.LastSepIndex` | index.py:20 | the index of the last separator of the path, or -1; no separator follows it |
| `Paths.BasenameIsLastComponent` | index.py:20 | `basename` is the longest suffix of the path that has no separator |
| `Paths.BasenameOfJoin` | index.py:59-61 | the basename of a walked path is the name the walk listed |
| `Paths.LastIndexOf` | index.py:20 | `rfind`: the index of the last occurrence, or -1 when there is none |
| `Paths.SplitExt` | index.py:20 | `os.path.splitext` of a basename; its properties are `SplitExtParts` |
| `Paths.SplitExtParts` | index.py:20 | `filename + extension` is the basename; a non-empty extension is one dot followed by no other dot, and something other than a dot comes before it; with no extension, only dots come before the last dot |
| `FileIndex.GetFileInfo` | index.py:16-46 | `get_file_info`; its properties are `ExtractionFailsIff`, `RecordNamesFile` and `FieldsFollowMime` |
| `FileIndex.ExtractionFailsIff` | index.py:16-46 | `get_file_info` returns `None` exactly when `getsize`, the image branch or the video branch raises |
| `FileIndex.RecordNamesFile` | index.py:18-20 | a record carries the file's size and MIME type, and its filename and extension together are the basename |
| `FileIndex.FieldsFollowMime` | index.py:22-34 | text is present exactly for an image type; a resolution is present exactly for an image, or for a video whose capture opened; the values are PIL's size and text, or the frame size |
| `FileIndex.HashInput` | index.py:49 | the hash input is as long as the four rendered fields put together |
| `FileIndex.FileId` | index.py:48-50 | `generate_file_id`: the digest of the hash input; its properties are `FileIdOnlyKeyFields`, `HashInputSeparatesOneField` and `HashInputCollision` |
| `FileIndex.FileIdOnlyKeyFields` | index.py:48-50 | the id depends only on size, filename, extension and MIME type |
| `FileIndex.HashInputSeparatesOneField` | index.py:49 | two records that differ in exactly one key field, with the MIME type compared as rendered, have different hash inputs; `None` and `"None"` render alike |
| `FileIndex.HashInputCollision` | index.py:49 | with no delimiter, records that differ in size and filename can have the same hash input |
| `FileIndex.ResolutionText` | index.py:68-70 | the resolution column is present exactly when the record has a resolution (a tuple is truthy, `(0, 0)` included), and the text present is the one text that parses back as that resolution, which is its `"<w>x<h>"` with both numbers written as `str` writes them |
| `FileIndex.ParseResolutionString` | index.py:70 | the `"<w>x<h>"` column determines both numbers it was written from |
| `FileIndex.ParsedResolutionIsString` | index.py:70 | a text that parses as a size is that size's `"<w>x<h>"`: the parse accepts no leading zeros and nothing around the numerals |
| `FileIndex.ResolutionStringUnique` | index.py:70 | a text parses as a given size exactly when it is that size's `"<w>x<h>"` |
| `FileIndex.MakeRow` | index.py:89-92 | the inserted row is keyed by the record's id, and its resolution column is present exactly when the record has a resolution and reads back as it |
| `FileIndex.InsertedRowHoldsRecord` | index.py:89-102 | after a storable path's row is inserted under a new id, the `SELECT` by that id finds a row with the record's filename, extension, size, MIME type and text, and a resolution column that reads back as the record's resolution |
| `FileIndex.Lookup` | index.py:97-98 | `SELECT ... WHERE id = ?` finds a row exactly when the id is in the table, and the row it finds has that id |
| `FileIndex.LookupAppended` | index.py:89-98 | after appending a row whose id was absent, the lookup by that id finds that row |
| `FileIndex.InsertRow` | index.py:89-105 | an insert attempt either leaves the table alone or appends the offered row; it appends only when the id is absent, it always appends when the offered id is absent, and afterwards the offered id is in the table |
| `FileIndex.InsertAll` | index.py:56-109 | the insert attempts of a pass in order; its properties are the `InsertAll...` lemmas below |
| `FileIndex.InsertAllKeepsUniqueIds` | index.py:79 | after every insert attempt the table still has at most one row per id |
| `FileIndex.InsertAllExtends` | index.py:89-105 | rows are only appended; no stored row is ever replaced or removed |
| `FileIndex.FirstInsertWins` | index.py:104-105 | an id already in the table keeps its first row through any later inserts |
| `FileIndex.SkippedOfferIsInvisible` | index.py:62-64 | an attempt that offers nothing leaves the result of the attempts around it unchanged |
| `FileIndex.NewRowsWereOffered` | index.py:89-93 | every row added is one of the rows offered |
| `FileIndex.InsertAllCovers` | index.py:89-105 | afterwards the table has every earlier id and the id of every offered row |
| `FileIndex.InsertAllPresentIsNoOp` | index.py:104-105 | attempts whose ids are all present change nothing |
| `FileIndex.InsertTwiceIsInsertOnce` | index.py:89-105 | repeating the same attempts gives the same table as doing them once |
| `FileIndex.IndexAll` | index.py:56-109 | the table after visiting the paths in order; its properties are the lemmas below and the loops proved equal to it |
| `FileIndex.IndexKeepsUniqueIds` | index.py:56-109 | a whole pass keeps at most one row per id |
| `FileIndex.FailedFileAddsNoRow` | index.py:61-64 | a file whose extraction failed, or whose storing raised, adds no row and does not change what the files around it produce |
| `FileIndex.NewRowsComeFromStorablePaths` | index.py:56-109 | every row a pass adds was built from the record of a visited path whose extraction succeeded and whose storing did not raise |
| `FileIndex.StoredRowSurvivesPass` | index.py:104-105 | a pass never changes the row already stored under an id |
| `FileIndex.StorablePathsAreIndexed` | index.py:56-109 | after a pass, every visited path whose extraction and storing succeeded has its id in the table |
| `FileIndex.IndexTwiceIsIndexOnce` | index.py:56-109 | running again over the same paths, with the same collaborator answers, leaves the table exactly as one run left it |
| `FileIndex.DirPaths` | index.py:58-59 | the paths of one walk entry, one per listed name, in order; what they mean is `WalkedNameIsRecorded` |
| `FileIndex.WalkedNameIsRecorded` | index.py:58-61 | for a walked path whose extraction succeeded, the record's filename and extension put together are the name `os.walk` listed, which is the name the search joins back under its media folder |
| `FileIndex.WalkPaths` | index.py:56-58 | all paths of the walk, directory by directory, in walk order |
| `FileIndex.FilesTable.constructor` | index.py:77-87 | a new `files` table is empty and meets the primary-key invariant |
| `FileIndex.FilesTable.Insert` | index.py:89-105 | `IntegrityError` exactly when the id is taken, and then the table is unchanged; otherwise the row is appended and the lookup by its id finds it |
| `FileIndex.FilesTable.IndexFile` | index.py:59-109 | one iteration of the loop: the table becomes `InsertRow` of the old table and what the path offers |
| `FileIndex.FilesTable.IndexDirectory` | index.py:58-109 | the inner loop leaves the table as `IndexAll` over that directory's paths, and keeps the primary key |
| `FileIndex.FilesTable.IndexFolder` | index.py:52-109 | the whole walk leaves the table as `IndexAll` over all walked paths in walk order, and keeps the primary key |
| `Text.Split` | ocr_search.py:16 | every word `split()` returns is non-empty and contains no whitespace; which words they are is `SplitIsRuns` |
| `Text.SplitIsRuns` | ocr_search.py:16 | `w` is a word of `split()` exactly when it is a maximal whitespace-free run of the string: `s[i..j]` with `i < j`, no whitespace inside, bounded by the string's ends or by whitespace |
| `Text.SplitEmptyIffBlank` | ocr_search.py:16 | a query has no words exactly when it is empty or all whitespace |
| `Text.SplitUnsplit` | ocr_search.py:16 | splitting words joined by spaces gives the same words back |
| `Text.Contains` | ocr_search.py:19 | `word in text`; its meaning is `ContainsIffOccurs` |
| `Text.ContainsIffOccurs` | ocr_search.py:19 | `word in text` holds exactly when the word occurs at some position of the text |
| `OcrSearch.WithText` | ocr_search.py:13-14 | no more rows are kept than the table has |
| `OcrSearch.WithTextKeepsExactly` | ocr_search.py:13-14 | a row is kept exactly when it is a row of the table with text, and every kept row has text |
| `OcrSearch.OcrTexts` | ocr_search.py:13 | the `ocr_texts` comprehension; its alignment with the rows is `ListsAligned` |
| `OcrSearch.Filenames` | ocr_search.py:14 | the `filenames` comprehension; its alignment with the rows is `ListsAligned` |
| `OcrSearch.ListsAligned` | ocr_search.py:13-14 | the text list and the name list have one entry per kept row; entry `i` of both comes from kept row `i`, and the name is filename followed by extension |
| `OcrSearch.QueryWords` | ocr_search.py:16 | every query word is non-empty and has no whitespace; which words they are is `QueryWordsAreRuns` |
| `OcrSearch.QueryWordsAreRuns` | ocr_search.py:16 | `set(query.split())` holds exactly the maximal whitespace-free runs of the query |
| `OcrSearch.Matches` | ocr_search.py:19 | `any(word in text for word in query_words)`; see `WordInTextMatches`, `WordMissingLetterMisses` and `SubstringNotToken` |
| `OcrSearch.MatchingFrom` | ocr_search.py:17-20 | the indices are strictly increasing and in range, and an index is present exactly when its text contains a query word |
| `OcrSearch.MatchingIndices` | ocr_search.py:17-20 | the matching indices are strictly increasing, within `[0, len(ocr_texts))`, there are no more of them than texts, and an index is present exactly when its text matches |
| `OcrSearch.MatchingPaths` | ocr_search.py:22 | the `matching_filepaths` comprehension without `abspath`; its result is characterised by `SearchIsFilter` |
| `OcrSearch.SearchOcrText` | ocr_search.py:6-29 | a database error gives the empty list; otherwise there are no more paths than rows with text |
| `OcrSearch.SearchIsFilter` | ocr_search.py:13-22 | the parallel-list program returns, in table order, the media path of each row whose text matches, one per matching row |
| `OcrSearch.FilterFindsMatchingRows` | ocr_search.py:13-22 | a path is in the row-by-row filter exactly when it is the media path of a row whose text matches |
| `OcrSearch.SearchFindsMatchingRows` | ocr_search.py:13-22 | a path is returned exactly when it is the media directory joined with `filename + extension` of a row whose text contains a query word |
| `OcrSearch.BlankQueryFindsNothing` | ocr_search.py:16-19 | an empty or all-whitespace query finds nothing |
| `OcrSearch.WordInTextMatches` | ocr_search.py:19 | a one-word query that occurs in a text matches that text |
| `OcrSearch.WordMissingLetterMisses` | ocr_search.py:19 | a one-word query holding a letter the text lacks does not match that text |
| `OcrSearch.TotalMatchesInvoice` | ocr_search.py:19 | the text "invoice total due" matches the query "total" |
| `OcrSearch.TotallyMissesInvoice` | ocr_search.py:19 | the text "invoice total due" does not match the query "totally" |
| `OcrSearch.SubstringNotToken` | ocr_search.py:19 | the query "total" matches the text "totally free", so the test is substring containment |

## Left out

- SQLite's connection, `CREATE TABLE IF NOT EXISTS` on every iteration, and
  commit: the table is a sequence that starts empty and enforces the primary key.
- A failing `sqlite3.connect` on the first file that reaches the `try`
  (index.py:73) is not modelled: `conn` would then be unbound and the
  `finally` clause would raise out of `index_folder`. On any later file the
  error is caught (index.py:106) and the `finally` closes the previous,
  already closed connection, so that case is `storeFault` true. `storeFault`
  stands for errors raised before the commit completes, which leave the table
  as it was.
- `hash_input.encode()` (index.py:50) raises `UnicodeEncodeError` for a name
  holding a lone surrogate, and it is called outside any `try` (index.py:65),
  so such a name would abort `index_folder`. A Dafny `string` cannot hold a
  lone surrogate, so the model has no such name.
- The `SELECT` that checks the insert (index.py:97-102) only prints. Its
  outcome is the `Lookup` ensures of `FilesTable.Insert`.
- Decoding with PIL, pytesseract and OpenCV, and `mimetypes.guess_type`: these
  are opaque answers in `Env`. Frame sizes are taken as already converted by
  `int(...)`.
- `Env.openVideo`: `video.release()` is not modelled. It has no effect on the
  record.
- SHA-256 and `hexdigest`: `digest` is an arbitrary function, so nothing is
  claimed about collisions of the digest itself.
- `os.walk` traversal, the file-count pass, tqdm, ANSI colours and every
  `print`.
- `Paths.Join` and `Paths.Basename`: drive letters and absolute second
  arguments are not modelled, because walked names and stored names are plain
  names and walked paths carry a separator after any drive. `ntpath` gives
  `"a.jpg"` as the basename of `"C:a.jpg"`, where the model gives `"C:a.jpg"`.
- `os.path.abspath` around the search's join is not modelled. For a plain name
  under an absolute folder it resolves `.` and `..`, which `os.walk` never
  lists, and on Windows (through `GetFullPathNameW`) it also trims trailing
  dots and spaces from the last component, so a stored name ending in a dot
  or a space is returned trimmed by the code but untrimmed by the model.
- `OcrSearch.SearchOcrText`: the only failure is a database error, shown as
  `None` for the fetched rows. Nothing else in the function can raise on
  stored strings. The alignment lemma shows that `filenames[i]` is always in
  range.
- `main` of `ocr_search.py`: the input loop, clearing the cache folder,
  copying files and opening the folder are all filesystem and process I/O. The
  `sys` it uses at line 61 is never imported.
