/** The collection store and the endpoints built on it. The directory of
    `<name>.json` files is modelled as a map from collection name to the
    collection's triples; uploading merges newly extracted triples behind
    the stored ones, listing summarises every file the directory listing
    shows, paging slices one collection, and deleting removes one. */
module KnowledgeBase {
  import opened Errors
  import opened Text
  import opened Validation
  import opened Extract

  newtype byte = x: int | 0 <= x < 256

  /** One text codec: the decoded text, or None where `bytes.decode` raises. */
  type Decoder = seq<byte> -> Option<string>

  /** The CSV reader: the data frame, or None where it raises. */
  type Reader = string -> Option<Table>

  /** One entry of the `/spaces` listing. */
  datatype Summary = Summary(name: string, tripleCount: nat, createdAt: Option<string>)

  /** The body of a page of one collection. */
  datatype Page = Page(spaceName: string, totalCount: nat, limit: int, offset: int, triples: seq<Triple>)

  /** The body of a successful upload. */
  datatype UploadReport = UploadReport(newTriples: seq<Triple>, totalTriples: nat, spaceName: string)

  /** The suffix of a collection's file. */
  const JsonSuffix: string := ".json"

  /** What loading a collection yields: its triples, or none if it does not exist. */
  function Lookup(kbs: map<string, seq<Triple>>, name: string): seq<Triple> {
    if name in kbs then kbs[name] else []
  }

  // ---------------------------------------------------------------------
  // Decoding

  /** The text of the first decoder in the list that accepts the bytes. */
  function FirstDecoding(decoders: seq<Decoder>, content: seq<byte>): Option<string> {
    if decoders == [] then None
    else match decoders[0](content)
      case Some(text) => Some(text)
      case None => FirstDecoding(decoders[1..], content)
  }

  /** The decoding used is that of the first decoder that accepts the bytes. */
  lemma {:induction false} FirstDecodingIsFirst(decoders: seq<Decoder>, content: seq<byte>, k: nat)
    requires k < |decoders| && decoders[k](content).Some?
    requires forall j :: 0 <= j < k ==> decoders[j](content).None?
    ensures FirstDecoding(decoders, content) == decoders[k](content)
  {
    if k > 0 {
      FirstDecodingIsFirst(decoders[1..], content, k - 1);
    }
  }

  /** Decoding fails exactly when every decoder refuses the bytes; so with a
      decoder that accepts everything (latin-1) anywhere in the list, it never
      fails. */
  lemma {:induction false} FirstDecodingFails(decoders: seq<Decoder>, content: seq<byte>)
    ensures FirstDecoding(decoders, content) == None <==>
      forall j :: 0 <= j < |decoders| ==> decoders[j](content) == None
  {
    if decoders != [] {
      FirstDecodingFails(decoders[1..], content);
      assert forall j :: 1 <= j < |decoders| ==> decoders[j] == decoders[1..][j - 1];
    }
  }

  /** The decoding loop of the upload: try each encoding in turn and stop at
      the first that does not raise. */
  method DecodeContent(decoders: seq<Decoder>, content: seq<byte>) returns (text: Option<string>)
    ensures text == FirstDecoding(decoders, content)
  {
    text := None;
    var i := 0;
    while i < |decoders|
      invariant 0 <= i <= |decoders|
      invariant FirstDecoding(decoders, content) == FirstDecoding(decoders[i..], content)
    {
      var attempt := decoders[i](content);
      if attempt.Some? {
        text := attempt;
        return;
      }
      i := i + 1;
    }
  }

  // ---------------------------------------------------------------------
  // Upload

  /** What an upload yields before the store is consulted: the checks in the
      order the endpoint applies them, then decoding, reading and extraction. */
  function Ingest(name: string, filename: string, content: seq<byte>,
                  decoders: seq<Decoder>, read: Reader, clock: Clock): (r: Result<seq<Triple>>)
    ensures !ValidSpaceName(name) ==> r == Err(InvalidName)
    ensures ValidSpaceName(name) && !ValidFileType(filename) ==> r == Err(InvalidFileType)
    ensures ValidSpaceName(name) && ValidFileType(filename) && |content| > MaxFileSize ==> r == Err(PayloadTooLarge)
    ensures r == Err(DecodeFailed) <==>
      ValidSpaceName(name) && ValidFileType(filename) && |content| <= MaxFileSize
      && forall j :: 0 <= j < |decoders| ==> decoders[j](content) == None
    ensures r.Ok? ==> forall tr :: tr in r.value ==>
      tr.space == name && tr.relation == NextTo && tr.kind == RowAdjacentKind
  {
    FirstDecodingFails(decoders, content);
    if !ValidSpaceName(name) then Err(InvalidName)
    else if !ValidFileType(filename) then Err(InvalidFileType)
    else if |content| > MaxFileSize then Err(PayloadTooLarge)
    else match FirstDecoding(decoders, content)
      case None => Err(DecodeFailed)
      case Some(text) =>
        match read(text)
        case None => Err(ParseFailed)
        case Some(table) =>
          RowAdjacentExact(KeptCells(table), name, clock);
          Ok(RowAdjacent(KeptCells(table), name, clock))
  }

  /** The steps of the upload endpoint before the store is consulted, as
      statements: each check returns its error as soon as it fails. */
  method CheckAndExtract(name: string, filename: string, content: seq<byte>,
                         decoders: seq<Decoder>, read: Reader, clock: Clock)
    returns (r: Result<seq<Triple>>)
    ensures r == Ingest(name, filename, content, decoders, read, clock)
  {
    if !ValidSpaceName(name) {
      return Err(InvalidName);
    }
    if !ValidFileType(filename) {
      return Err(InvalidFileType);
    }
    if |content| > MaxFileSize {
      return Err(PayloadTooLarge);
    }
    var text := DecodeContent(decoders, content);
    if text.None? {
      return Err(DecodeFailed);
    }
    var table := read(text.value);
    if table.None? {
      return Err(ParseFailed);
    }
    var triples := CsvToTriples(table.value, name, clock);
    r := Ok(triples);
  }

  /** The store after `added` is merged into collection `name`. */
  function Merge(kbs: map<string, seq<Triple>>, name: string, added: seq<Triple>): (m: map<string, seq<Triple>>)
    ensures m.Keys == kbs.Keys + {name}
    ensures m[name] == Lookup(kbs, name) + added
    ensures forall n :: n in kbs && n != name ==> m[n] == kbs[n]
  {
    kbs[name := Lookup(kbs, name) + added]
  }

  /** Two uploads in a row to one collection: the first batch comes before
      the second, behind what was stored, and the count is the sum. */
  lemma MergeTwice(kbs: map<string, seq<Triple>>, name: string, a: seq<Triple>, b: seq<Triple>)
    ensures Lookup(Merge(Merge(kbs, name, a), name, b), name) == Lookup(kbs, name) + a + b
    ensures |Lookup(Merge(Merge(kbs, name, a), name, b), name)| == |Lookup(kbs, name)| + |a| + |b|
    ensures forall n :: n != name ==> Lookup(Merge(Merge(kbs, name, a), name, b), n) == Lookup(kbs, n)
  {
  }

  // ---------------------------------------------------------------------
  // Listing

  /** `filename[:-5]` for a file ending in ".json". */
  function StripJson(f: string): string
    requires EndsWith(f, JsonSuffix)
  {
    f[..|f| - |JsonSuffix|]
  }

  /** The collection names the listed files stand for, in listing order. */
  function JsonNames(files: seq<string>): seq<string> {
    if files == [] then []
    else
      var last := files[|files| - 1];
      JsonNames(files[..|files| - 1]) + (if EndsWith(last, JsonSuffix) then [StripJson(last)] else [])
  }

  ghost predicate Distinct<T>(s: seq<T>) {
    forall a, b :: 0 <= a < b < |s| ==> s[a] != s[b]
  }

  /** A name is listed exactly when its file is; distinct files give
      distinct names. */
  lemma {:induction false} JsonNamesExactly(files: seq<string>)
    ensures forall n :: n in JsonNames(files) <==> n + JsonSuffix in files
    ensures Distinct(files) ==> Distinct(JsonNames(files))
  {
    if files != [] {
      var init, last := files[..|files| - 1], files[|files| - 1];
      assert files == init + [last];
      JsonNamesExactly(init);
      if EndsWith(last, JsonSuffix) {
        assert StripJson(last) + JsonSuffix == last;
        forall n ensures n + JsonSuffix == last <==> n == StripJson(last) {
          if n + JsonSuffix == last {
            assert (n + JsonSuffix)[..|n|] == n;
          }
        }
        if Distinct(files) {
          var names := JsonNames(init);
          assert StripJson(last) !in names;
          assert Distinct(init) by {
            forall a, b | 0 <= a < b < |init| ensures init[a] != init[b] {
              assert init[a] == files[a] && init[b] == files[b];
            }
          }
          var all := names + [StripJson(last)];
          forall a, b | 0 <= a < b < |all| ensures all[a] != all[b] {
            if b == |names| {
              assert all[a] == names[a];
            } else {
              assert all[a] == names[a] && all[b] == names[b];
            }
          }
        }
      } else {
        forall n ensures n + JsonSuffix != last {
          assert EndsWith(n + JsonSuffix, JsonSuffix) by {
            assert (n + JsonSuffix)[|n|..] == JsonSuffix;
          }
        }
        if Distinct(files) {
          forall a, b | 0 <= a < b < |init| ensures init[a] != init[b] {
            assert init[a] == files[a] && init[b] == files[b];
          }
        }
      }
    }
  }

  /** The directory holds, besides files not ending in ".json", exactly one
      `<name>.json` per stored collection, each listed once. */
  ghost predicate ListsStore(kbs: map<string, seq<Triple>>, files: seq<string>) {
    && Distinct(files)
    && (forall n :: n in kbs ==> n + JsonSuffix in files)
    && (forall f :: f in files && EndsWith(f, JsonSuffix) ==> StripJson(f) in kbs)
  }

  /** Over such a listing, the listed names are the stored collections, each
      exactly once. */
  lemma ListingCoversStore(kbs: map<string, seq<Triple>>, files: seq<string>)
    requires ListsStore(kbs, files)
    ensures forall n :: n in kbs <==> n in JsonNames(files)
    ensures Distinct(JsonNames(files))
  {
    JsonNamesExactly(files);
    forall n | n in JsonNames(files) ensures n in kbs {
      var f := n + JsonSuffix;
      assert f in files;
      assert f[|n|..] == JsonSuffix;
      assert f[..|n|] == n;
    }
  }

  // ---------------------------------------------------------------------
  // Paging

  function Min(a: int, b: int): int {
    if a <= b then a else b
  }

  /** `s[offset:offset + limit]` for a non-negative offset and limit. */
  function Window<T>(s: seq<T>, offset: nat, limit: nat): (r: seq<T>)
    ensures offset >= |s| ==> r == []
    ensures offset < |s| ==> |r| == Min(limit, |s| - offset)
    ensures forall k :: 0 <= k < |r| ==> r[k] == s[offset + k]
  {
    s[Min(offset, |s|)..Min(offset + limit, |s|)]
  }

  // ---------------------------------------------------------------------
  // The store

  class Store {
    /** Collection name to its triples, one entry per `<name>.json` file. */
    var kbs: map<string, seq<Triple>>

    /** Every stored collection has a valid name. */
    ghost predicate Valid()
      reads this
    {
      forall n :: n in kbs ==> ValidSpaceName(n)
    }

    constructor ()
      ensures Valid() && kbs == map[]
    {
      kbs := map[];
    }

    /** `load_knowledge_base`: the stored triples, or none for an unknown name. */
    method Load(name: string) returns (triples: seq<Triple>)
      ensures name in kbs ==> triples == kbs[name]
      ensures name !in kbs ==> triples == []
    {
      if name in kbs {
        triples := kbs[name];
      } else {
        triples := [];
      }
    }

    /** `save_knowledge_base`: overwrites the collection; a later Load of the
        same name returns exactly what was saved. */
    method Save(name: string, triples: seq<Triple>)
      requires Valid() && ValidSpaceName(name)
      modifies this
      ensures Valid()
      ensures kbs == old(kbs)[name := triples]
    {
      kbs := kbs[name := triples];
    }

    /** `POST /parse-csv/{space_name}`. A failed upload leaves the store as it
        was; a successful one appends the new triples behind the stored ones
        and reports them with the new total. */
    method Upload(name: string, filename: string, content: seq<byte>,
                  decoders: seq<Decoder>, read: Reader, clock: Clock)
      returns (r: Result<UploadReport>)
      requires Valid()
      modifies this
      ensures Valid()
      ensures var outcome := Ingest(name, filename, content, decoders, read, clock);
        && (outcome.Err? ==> r == Err(outcome.error) && kbs == old(kbs))
        && (outcome.Ok? ==>
              && kbs == Merge(old(kbs), name, outcome.value)
              && r == Ok(UploadReport(outcome.value, |Lookup(old(kbs), name)| + |outcome.value|, name)))
    {
      var outcome := CheckAndExtract(name, filename, content, decoders, read, clock);
      if outcome.Err? {
        return Err(outcome.error);
      }
      var added := outcome.value;
      var existing := Load(name);
      var all := existing + added;
      Save(name, all);
      r := Ok(UploadReport(added, |all|, name));
    }

    /** `GET /spaces`, over the directory listing `files`: one summary per
        ".json" file, in listing order, with the collection's size and the
        timestamp of its first triple. */
    method ListSpaces(files: seq<string>) returns (spaces: seq<Summary>)
      ensures |spaces| == |JsonNames(files)|
      ensures forall k :: 0 <= k < |spaces| ==>
        var name := JsonNames(files)[k];
        && spaces[k].name == name
        && spaces[k].tripleCount == |Lookup(kbs, name)|
        && spaces[k].createdAt == (if Lookup(kbs, name) == [] then None else Some(Lookup(kbs, name)[0].createdAt))
    {
      spaces := [];
      for i := 0 to |files|
        invariant |spaces| == |JsonNames(files[..i])|
        invariant forall k :: 0 <= k < |spaces| ==>
          var name := JsonNames(files[..i])[k];
          && spaces[k].name == name
          && spaces[k].tripleCount == |Lookup(kbs, name)|
          && spaces[k].createdAt == (if Lookup(kbs, name) == [] then None else Some(Lookup(kbs, name)[0].createdAt))
      {
        assert files[..i + 1][..i] == files[..i];
        var filename := files[i];
        if EndsWith(filename, JsonSuffix) {
          var name := StripJson(filename);
          var triples := Load(name);
          var createdAt := if |triples| > 0 then Some(triples[0].createdAt) else None;
          spaces := spaces + [Summary(name, |triples|, createdAt)];
        }
      }
      assert files[..|files|] == files;
    }

    /** `GET /spaces/{space_name}`: the name, then the limit, then the
        offset are checked; a page is the slice of the collection starting at
        the offset, at most `limit` long, with the collection's size. */
    method GetSpaceTriples(name: string, limit: int, offset: int) returns (r: Result<Page>)
      ensures !ValidSpaceName(name) ==> r == Err(InvalidName)
      ensures ValidSpaceName(name) && (limit < 1 || limit > MaxPageLimit) ==> r == Err(InvalidLimit)
      ensures ValidSpaceName(name) && 1 <= limit <= MaxPageLimit && offset < 0 ==> r == Err(InvalidOffset)
      ensures r.Ok? ==>
        && ValidSpaceName(name) && 1 <= limit <= MaxPageLimit && 0 <= offset
        && r.value == Page(name, |Lookup(kbs, name)|, limit, offset, Window(Lookup(kbs, name), offset, limit))
      ensures ValidSpaceName(name) && 1 <= limit <= MaxPageLimit && 0 <= offset ==> r.Ok?
    {
      if !ValidSpaceName(name) {
        return Err(InvalidName);
      }
      var check := CheckPage(limit, offset);
      if check.Some? {
        return Err(check.value);
      }
      var triples := Load(name);
      var total := |triples|;
      r := Ok(Page(name, total, limit, offset, Window(triples, offset, limit)));
    }

    /** `GET /spaces/{space_name}` with no query parameters: the defaults
        are accepted, and the page is the first `DefaultPageLimit` triples. */
    method GetSpaceTriplesDefault(name: string) returns (r: Result<Page>)
      ensures !ValidSpaceName(name) ==> r == Err(InvalidName)
      ensures ValidSpaceName(name) ==>
        var stored := Lookup(kbs, name);
        && r.Ok?
        && r.value.limit == DefaultPageLimit && r.value.offset == DefaultPageOffset
        && r.value.totalCount == |stored|
        && r.value.triples == stored[..Min(DefaultPageLimit, |stored|)]
    {
      PageBoundaries();
      r := GetSpaceTriples(name, DefaultPageLimit, DefaultPageOffset);
      if r.Ok? {
        var stored := Lookup(kbs, name);
        assert r.value.triples == stored[..Min(DefaultPageLimit, |stored|)];
      }
    }

    /** `DELETE /spaces/{space_name}`: removes an existing collection, after
        which loading it yields nothing; an unknown name is NotFound and
        changes nothing. */
    method Delete(name: string) returns (r: Result<()>)
      requires Valid()
      modifies this
      ensures Valid()
      ensures !ValidSpaceName(name) ==> r == Err(InvalidName) && kbs == old(kbs) && name !in kbs
      ensures ValidSpaceName(name) && name in old(kbs) ==>
        r == Ok(()) && kbs == old(kbs) - {name} && Lookup(kbs, name) == []
      ensures ValidSpaceName(name) && name !in old(kbs) ==> r == Err(NotFound) && kbs == old(kbs)
    {
      if !ValidSpaceName(name) {
        return Err(InvalidName);
      }
      if name in kbs {
        kbs := kbs - {name};
        return Ok(());
      }
      return Err(NotFound);
    }
  }
}
