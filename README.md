# Model of the CSV-to-triples knowledge-base service

The service accepts CSV uploads, turns each one into subject-predicate-object
triples with a positional rule, and keeps the triples in named collections
("spaces", one `<name>.json` file each). Clients list the collections, page
through one collection's triples and delete a collection.

This Dafny project models the whole of `main.py` that holds logic:

- `errors.dfy` (module `Errors`): `Option`, `Result` and the failures the
  endpoints raise, with their HTTP status codes.
- `text.dfy` (module `Text`): Python's `str.strip`, `str.lower` and
  `str.endswith`, over Dafny strings.
- `validation.dfy` (module `Validation`): the collection-name pattern, the
  file-type check, the 50 MiB size limit and the pagination bounds.
- `extract.dfy` (module `Extract`): `csv_to_triples` from the data frame
  onward. The frame is a rectangular grid of `str()`-ed cell values plus the
  column names. The extractor is imperative, as the source is: the nested
  loops (`CollectCells`, whose inner loop is `ScanRow`) collect the kept
  cells, and a second loop (`LinkNeighbours`) links same-row neighbours;
  `CsvToTriples` runs the two. They are proved equal to the specification
  functions `KeptCells` and `RowAdjacent`, and the properties of the rule
  are lemmas about those functions.
- `store.dfy` (module `KnowledgeBase`): the store class `Store`. Its field
  `kbs: map<string, seq<Triple>>` stands for the directory of JSON files.
  `Load`, `Save`, `Upload`, `ListSpaces`, `GetSpaceTriples` and `Delete`
  are methods on it. The steps of the upload before the store is consulted
  are the method `CheckAndExtract`, specified by the pure function `Ingest`;
  the merge is specified by `Merge`.

The parts that call into code not modelled here are parameters:

- the codecs that `bytes.decode` tries, as `seq<Decoder>`;
- `pandas.read_csv`, as a `Reader`;
- the wall clock, as a `Clock`. The clock gives the timestamp read while the
  scan is at pair `i`, because the source reads the clock once per triple;
- `os.listdir`, as the list of file names `files` given to `ListSpaces`.

Field names: the triple's `predicate` field is `relation` and its `type`
field is `kind`, because `predicate` and `type` are Dafny keywords.

The name check used by every endpoint of the model is the intended one,
`ValidSpaceName`. The pattern the source actually evaluates accepts one more
kind of name; see "## Findings".

## Model

| member | source | states |
|---|---|---|
| Errors.StatusCode | main.py:133-248 | a too-large upload is 413, a missing collection on delete is 404, every other failure is 400 |
| Text.TrimExactly | main.py:92 | `strip()` gives the part of the string between its leading and trailing white space; that part neither starts nor ends with white space; it is empty exactly when the string is all white space |
| Text.TrimEmpty | main.py:92-93 | the trimmed text is empty, so the cell is dropped, exactly when every character of the cell is white space |
| Validation.ValidSpaceNameExactly | main.py:25-28 | the intended name check accepts exactly the non-empty strings all of whose characters are in `[a-zA-Z0-9_-]` |
| Validation.SpaceNameMatchAsWrittenExactly | main.py:25-28 | the pattern as Python evaluates it accepts exactly the valid names, plus each valid name followed by one newline |
| Validation.NameRunExactly | main.py:28 | the greedy run of `[a-zA-Z0-9_-]+` from the start covers only name characters and stops at the first other character |
| Validation.ForeignCharRefused | main.py:25-28 | a single character outside `[a-zA-Z0-9_-]`, anywhere in the name, makes the intended check fail |
| Validation.TrailingNewlineSlipsThrough | main.py:28 | "kb\n" passes the pattern as written but fails the intended check |
| Validation.NameExamples | main.py:25-28 | "kb_1-a" is accepted; "a/b", "a b", "a.b" and "" are rejected |
| Validation.ValidFileTypeExactly | main.py:30-32 | the file-type check holds exactly when the last four characters are a dot followed by c, s, v in either case |
| Validation.CheckPage | main.py:219-222 | the page request passes exactly when 1 <= limit <= 1000 and offset >= 0; a bad limit is reported before a bad offset |
| Validation.PageBoundaries | main.py:219-222 | limit 0 and limit 1001 are rejected, offset -1 is rejected, limits 1 and 1000 pass, and so do the default arguments limit 100, offset 0 (main.py:212) |
| Extract.KeptCellsExact | main.py:89-99 | a cell is kept exactly when its trimmed text is neither empty nor "nan"; a kept cell records that trimmed text, its row, its column and the column name; the kept cells are in strictly increasing row-major order |
| Extract.RowsOfKeptCells | main.py:89-99 | the rows of the kept cells are exactly the rows holding at least one kept value |
| Extract.RowAdjacentExact | main.py:101-111 | every triple is `next_to` / `row_adjacent` in the given space; triple k links the values of cells p and p+1 for the k-th index p at which two consecutive kept cells share a row; there is one triple for every such p, none for a pair that straddles rows, and the triples come in scan order |
| Extract.RowAdjacentCount | main.py:101-111 | for cells sorted by row, the number of triples is the number of cells minus the number of rows they span |
| Extract.TripleCount | main.py:89-111 | the number of triples is the number of kept cells minus the number of rows holding a kept cell; so a frame with no rows yields none, and a row with one kept cell adds none |
| Extract.CsvToTriples | main.py:79-126 | the nested scan and the pairing loop compute exactly the specified triples of the frame, and their number is as in TripleCount |
| Extract.ScanRow | main.py:91-99 | the inner loop over the columns of one row collects exactly that row's kept cells, left to right |
| Extract.CollectCells | main.py:89-99 | the nested loops collect exactly the kept cells of the frame, in row-major order |
| Extract.LinkNeighbours | main.py:101-111 | the pairing loop emits exactly the row-adjacency triples of the kept cells, as characterised by RowAdjacentExact |
| Extract.OneRowExample | main.py:85-111 | the frame of "a,b\n1,2\n" (columns a, b; one row 1, 2) yields the single triple 1 next_to 2 |
| Extract.SkippedCellsExample | main.py:92-103 | in the row x, " nan ", blank, y the middle cells are dropped and x and y are still linked |
| Extract.PaddedMarkerSkipped | main.py:92-93 | a cell holding " nan " is dropped: it trims to the missing marker |
| Extract.BlankSkipped | main.py:92-93 | a cell holding only spaces is dropped: it trims to the empty string |
| Extract.SkippedRow | main.py:89-99 | the kept cells of the row x, " nan ", blank, y are x at column 0 and y at column 3 |
| KnowledgeBase.FirstDecodingIsFirst | main.py:153-161 | the text used is that of the first codec in the list that accepts the bytes |
| KnowledgeBase.FirstDecodingFails | main.py:156-164 | decoding fails exactly when every codec in the list refuses the bytes |
| KnowledgeBase.DecodeContent | main.py:152-164 | the decoding loop stops at the first codec that succeeds and returns its text, or nothing if none does |
| KnowledgeBase.Ingest | main.py:133-167 | the checks run in the source's order (name, file type, size, then decoding); decoding fails exactly when every codec refuses; every extracted triple belongs to the target space |
| KnowledgeBase.Merge | main.py:169-176 | after the merge the collection is the old triples followed by the new ones; the other collections are unchanged |
| KnowledgeBase.CheckAndExtract | main.py:133-167 | the checks and the decoding, reading and extraction steps of the upload, run as statements that stop at the first failure, give exactly the outcome `Ingest` specifies |
| KnowledgeBase.MergeTwice | main.py:169-176 | after two uploads to one collection, the first batch precedes the second behind the old triples, and the size is the sum |
| KnowledgeBase.JsonNamesExactly | main.py:199-201 | a name is listed exactly when `<name>.json` is among the files; distinct files give distinct names |
| KnowledgeBase.ListingCoversStore | main.py:197-209 | over a listing of the store's directory, the names listed are exactly the stored collections, each once |
| KnowledgeBase.Window | main.py:226 | the page is empty when the offset is at or past the end; otherwise it has min(limit, total - offset) triples, the ones from the offset on |
| KnowledgeBase.Store.Load | main.py:65-71 | loading returns the stored triples, or none when the collection does not exist |
| KnowledgeBase.Store.Save | main.py:73-77 | saving overwrites exactly the one entry, so loading it again returns what was saved; it is called only with a checked name, as at main.py:135 and 176, so every stored name stays valid |
| KnowledgeBase.Store.Upload | main.py:128-192 | a failed upload leaves the store unchanged and reports the failure; a successful one stores old ++ new under the name, leaves other collections alone, and reports the new triples and the total old + new; stored names stay valid |
| KnowledgeBase.Store.ListSpaces | main.py:194-209 | one summary per ".json" file in listing order, with the name, the collection's triple count, and the timestamp of its first triple or none when it is empty |
| KnowledgeBase.Store.GetSpaceTriples | main.py:211-234 | the name, then the limit, then the offset are checked; a valid request returns the window of the collection at the offset, the total count, and the limit and offset it was given |
| KnowledgeBase.Store.GetSpaceTriplesDefault | main.py:212-234 | a request with no query parameters uses limit 100 and offset 0: for a valid name it succeeds with the first min(100, total) triples of the collection and the total; an invalid name is refused |
| KnowledgeBase.Store.Delete | main.py:236-248 | deleting an existing collection removes it, after which loading it yields nothing; an unknown name is NotFound and the store is unchanged; an invalid name is refused and, because only valid names are ever stored, is not in the store |

`ListSpaces` changes nothing, and its result is determined by the store and
the listing. So two listings with no write between them agree.

## Left out

- Text.Lower: maps only the ASCII letters. Python's `str.lower` also maps non-ASCII letters, but no non-ASCII character lowers to a string ending in `.`, `c`, `s` or `v`, so the `.csv` decision (ValidFileTypeExactly) is the same.
- KnowledgeBase.Store.Upload, GetSpaceTriples, Delete: they use the intended name check `ValidSpaceName`, not the pattern as written (see Findings).
- Parsing CSV text into a frame is `pandas.read_csv`, a foreign library. It is the `Reader` parameter, and a reader failure is the generic upload failure. Header detection and dtype inference (for example `1` becoming `"1.0"` in a column with missing values) belong to it.
- The codecs (utf-8, gbk, gb2312, latin-1) are foreign code. They are the `Decoder` list, which the caller gives in that order.
- The file system is not modelled. The JSON files are the `kbs` map, with no paths, no `os.makedirs`, no JSON formatting and no durability. A corrupt or unreadable file, and a failed write, are not modelled: `Load` always succeeds.
- `os.listdir` order is the `files` parameter of `ListSpaces`. When that parameter really lists the directory is the predicate `ListsStore`.
- `datetime.now().isoformat()` is the `Clock` parameter.
- Response messages (human-readable text) and the `success` flag are not modelled; only the outcome, the counts and the triples are.
- A missing upload file name (`file.filename` being `None`) is not modelled; the file name is a string.
- Query-parameter parsing (a non-integer `limit` or `offset`) is FastAPI's and is not modelled.
- Concurrency: two uploads to one name racing on load-merge-save under several workers (`gunicorn.conf.py`) is out of scope. Each upload here is one atomic step.
- HTTP plumbing is not modelled: routing, CORS, static files, the `/` and `/api` handlers, the unused bearer-token object and the server launch.
- The commented-out header relation in `csv_to_triples` is not code and is not modelled.

## Findings

| source | as written | input that shows it | evidently intended | confidence | as-written member | corrected member |
|---|---|---|---|---|---|---|
| main.py:28 | the name is checked with `re.match` and a pattern ending in `$`. In Python, `$` also matches just before a newline that ends the string | the name "kb\n" (for example a path ending in `%0A`) is accepted, and gives a collection whose name holds a newline | accept only names made entirely of letters, digits, `_` and `-`, as the comment above the check says | high for the pattern's behaviour, not executed | Validation.TrailingNewlineSlipsThrough | Validation.ValidSpaceNameExactly |
