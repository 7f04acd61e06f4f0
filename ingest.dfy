/**
 * Ingestion (src/ingest.py): find the PDF, stop when splitting yields
 * nothing, clean each chunk's metadata, number the chunks and hand them to
 * the vector store in one call. Loading, splitting, embedding and the store
 * are services outside the model: the first two are function parameters,
 * and every call made into a service is returned, in order.
 */
module Ingest {
  import opened Text
  import opened Numerals
  import opened Documents
  import opened Paths
  import Config

  // ---------------------------------------------------------------------
  // Metadata cleaning

  /** `v not in ("", None)`: the values the metadata filter keeps. */
  predicate Kept(v: Scalar) {
    v != Str("") && v != Null
  }

  /** The dict comprehension over `d.metadata.items()`: the entries whose
      value is neither "" nor None, in their original order. */
  function CleanMetadata(m: Metadata): (r: Metadata)
    ensures |r| <= |m|
    ensures forall i | 0 <= i < |r| :: Kept(r[i].1) && r[i] in m
    ensures forall i | 0 <= i < |m| :: Kept(m[i].1) ==> m[i] in r
  {
    if m == [] then []
    else (if Kept(m[0].1) then [m[0]] else []) + CleanMetadata(m[1..])
  }

  /** Cleaning works entry by entry: cleaning a concatenation is
      concatenating the cleaned halves, so the kept entries stay in order. */
  lemma {:induction false} CleanMetadataAppend(a: Metadata, b: Metadata)
    ensures CleanMetadata(a + b) == CleanMetadata(a) + CleanMetadata(b)
  {
    if a == [] {
      assert a + b == b;
    } else {
      assert (a + b)[0] == a[0];
      assert (a + b)[1..] == a[1..] + b;
      CleanMetadataAppend(a[1..], b);
    }
  }

  /** No key is added or duplicated, and each kept key keeps its value:
      a dict stays a dict. */
  lemma {:induction false} CleanMetadataUniqueKeys(m: Metadata)
    requires UniqueKeys(m)
    ensures UniqueKeys(CleanMetadata(m))
  {
    if m != [] {
      var rest := CleanMetadata(m[1..]);
      CleanMetadataUniqueKeys(m[1..]);
      if Kept(m[0].1) {
        forall j | 0 <= j < |rest| ensures rest[j].0 != m[0].0 {
          var k :| 0 <= k < |m[1..]| && m[1..][k] == rest[j];
          assert m[k + 1] == rest[j];
        }
        assert CleanMetadata(m) == [m[0]] + rest;
      }
    }
  }

  /** Metadata with nothing to drop is left exactly as it is. */
  lemma {:induction false} CleanMetadataKeepsClean(m: Metadata)
    requires forall i | 0 <= i < |m| :: Kept(m[i].1)
    ensures CleanMetadata(m) == m
  {
    if m != [] {
      CleanMetadataKeepsClean(m[1..]);
    }
  }

  /** Cleaning twice is cleaning once. */
  lemma CleanMetadataIdempotent(m: Metadata)
    ensures CleanMetadata(CleanMetadata(m)) == CleanMetadata(m)
  {
    CleanMetadataKeepsClean(CleanMetadata(m));
  }

  /** The list `enriched`: one document per split, same position, same text,
      cleaned metadata. */
  function Enrich(splits: seq<Document>): (r: seq<Document>)
    ensures |r| == |splits|
    ensures forall i | 0 <= i < |r| :: r[i].content == splits[i].content
    ensures forall i | 0 <= i < |r| :: r[i].metadata == CleanMetadata(splits[i].metadata)
  {
    seq(|splits|, i requires 0 <= i < |splits| => Document(splits[i].content, CleanMetadata(splits[i].metadata)))
  }

  // ---------------------------------------------------------------------
  // Chunk ids

  /** `f"doc-{i:04d}"`. */
  function DocId(i: nat): string {
    "doc-" + ZeroPadded(i, 4)
  }

  /** The list `ids`: one id per enriched chunk, numbered from 0. */
  function Ids(n: nat): (r: seq<string>)
    ensures |r| == n
  {
    seq(n, i requires 0 <= i < n => DocId(i))
  }

  /** Id i is "doc-" and then at least four digits that read back as i;
      it is eight characters long exactly when i < 10000. */
  lemma DocIdShape(i: nat)
    ensures |DocId(i)| >= 8 && DocId(i)[..4] == "doc-"
    ensures AllDigits(DocId(i)[4..]) && Value(DocId(i)[4..]) == i
    ensures |DocId(i)| == 8 <==> i < 10000
  {
    var d := DocId(i);
    assert d[4..] == ZeroPadded(i, 4);
    ValueOfZeroPadded(i, 4);
    assert Pow10(4) == 10000;
    DecimalLength(i, 4);
  }

  /** Two chunks get the same id only if they are the same chunk. */
  lemma DocIdInjective(i: nat, j: nat)
    ensures DocId(i) == DocId(j) <==> i == j
  {
    DocIdShape(i);
    DocIdShape(j);
  }

  /** The ids of one run are pairwise distinct. */
  lemma IdsDistinct(n: nat)
    ensures forall i, j | 0 <= i < j < n :: Ids(n)[i] != Ids(n)[j]
  {
    forall i, j | 0 <= i < j < n ensures Ids(n)[i] != Ids(n)[j] {
      DocIdInjective(i, j);
    }
  }

  /** Below 10000 chunks, a later id also sorts after an earlier one as a string. */
  lemma DocIdsOrdered(i: nat, j: nat)
    requires i < j < 10000
    ensures LexLess(DocId(i), DocId(j))
  {
    DocIdShape(i);
    DocIdShape(j);
    var a, b := ZeroPadded(i, 4), ZeroPadded(j, 4);
    assert DocId(i)[4..] == a && DocId(j)[4..] == b;
    LexLessMatchesValue(a, b);
    LexLessCommonPrefix("doc-", a, b);
  }

  /** The ids of a run of at most 10000 chunks increase as strings. */
  lemma IdsIncrease(n: nat)
    requires n <= 10000
    ensures forall i, j | 0 <= i < j < n :: LexLess(Ids(n)[i], Ids(n)[j])
  {
    forall i, j | 0 <= i < j < n ensures LexLess(Ids(n)[i], Ids(n)[j]) {
      DocIdsOrdered(i, j);
    }
  }

  /** Numbering starts at doc-0000. */
  lemma FirstIds()
    ensures Ids(2) == ["doc-0000", "doc-0001"]
  {
    assert DigitChar(0) == '0' && DigitChar(1) == '1';
    assert Decimal(0) == "0" && Decimal(1) == "1";
    assert Repeat('0', 3) == "000";
    assert ZeroPadded(0, 4) == "0000";
    assert ZeroPadded(1, 4) == "0001";
    assert Ids(2)[0] == DocId(0) == "doc-0000";
    assert Ids(2)[1] == DocId(1) == "doc-0001";
  }

  // ---------------------------------------------------------------------
  // The run

  /** A call into a service outside the model. */
  datatype Call =
    | LoadPdf(path: string)                    // PyPDFLoader(str(pdf_path)).load()
    | OpenStore(embeddingModel: string, collection: string, connection: string)
                                               // the embeddings client and PGVector(...)
    | AddDocuments(documents: seq<Document>, ids: seq<string>)
                                               // store.add_documents(documents=..., ids=...)

  /** How a run of the script ends. */
  datatype IngestResult =
    | MissingConfig(error: Config.ConfigError) // RuntimeError at import
    | PdfNotFound(path: string)                // FileNotFoundError
    | NoChunks                                 // SystemExit(1)
    | Ingested(count: nat)                     // all chunks handed to the store

  /** The process exit status: SystemExit(1), or 1 for an uncaught exception. */
  function ExitStatus(r: IngestResult): (code: int)
    ensures code == 0 <==> r.Ingested?
    ensures r.NoChunks? ==> code == 1
  {
    if r.Ingested? then 0 else 1
  }

  /** PDF_PATH (default "document.pdf") resolved against the script's place. */
  function PdfLocation(env: Config.Env, script: Path): Path {
    ResolvePdfPath(Config.GetEnv(env, "PDF_PATH", "document.pdf"), script)
  }

  /** The store the script opens, as configured in the environment. */
  function StoreOf(env: Config.Env): Call {
    OpenStore(Config.GetEnv(env, "GOOGLE_EMBEDDING_MODEL", "models/embedding-001"),
              Config.GetEnv(env, "PG_VECTOR_COLLECTION_NAME", ""),
              Config.GetEnv(env, "DATABASE_URL", ""))
  }

  /** What `ingest_pdf` promises, once the configuration check has passed. */
  ghost predicate IngestContract(env: Config.Env, script: Path, chunkSize: int, chunkOverlap: int,
                                 fileExists: Path -> bool, load: string -> seq<Document>,
                                 split: (seq<Document>, int, int) -> seq<Document>,
                                 result: IngestResult, calls: seq<Call>)
  {
    var path := PdfLocation(env, script);
    var splits := split(load(PathString(path)), chunkSize, chunkOverlap);
    // a missing file is reported before anything is loaded
    && (result.PdfNotFound? <==> !fileExists(path))
    && (result.PdfNotFound? ==> result.path == PathString(path) && calls == [])
    // zero chunks end the run before the store is opened or written
    && (result.NoChunks? <==> fileExists(path) && splits == [])
    && (result.NoChunks? ==> calls == [LoadPdf(PathString(path))])
    // otherwise every chunk is written, once, with its id
    && (result.Ingested? ==>
          && result.count == |splits| > 0
          && calls == [LoadPdf(PathString(path)), StoreOf(env), AddDocuments(Enrich(splits), Ids(|splits|))])
    && !result.MissingConfig?
  }

  /** `ingest_pdf()`. */
  method IngestPdf(env: Config.Env, script: Path, chunkSize: int, chunkOverlap: int,
                   fileExists: Path -> bool, load: string -> seq<Document>,
                   split: (seq<Document>, int, int) -> seq<Document>)
    returns (result: IngestResult, calls: seq<Call>)
    requires Config.AllSet(env, Config.RequiredVars)
    ensures IngestContract(env, script, chunkSize, chunkOverlap, fileExists, load, split, result, calls)
    ensures forall k | 0 <= k < |calls| :: calls[k].AddDocuments? ==> result.Ingested?
  {
    var pdfPath := PdfLocation(env, script);
    if !fileExists(pdfPath) {
      return PdfNotFound(PathString(pdfPath)), [];
    }
    var docs := load(PathString(pdfPath));
    var splits := split(docs, chunkSize, chunkOverlap);
    if splits == [] {
      return NoChunks, [LoadPdf(PathString(pdfPath))];
    }
    var enriched := Enrich(splits);
    var ids := Ids(|enriched|);
    calls := [LoadPdf(PathString(pdfPath)), StoreOf(env), AddDocuments(enriched, ids)];
    result := Ingested(|enriched|);
  }

  /** Running the script: the configuration check at import, then `ingest_pdf()`. */
  method Run(env: Config.Env, script: Path, chunkSize: int, chunkOverlap: int,
             fileExists: Path -> bool, load: string -> seq<Document>,
             split: (seq<Document>, int, int) -> seq<Document>)
    returns (result: IngestResult, calls: seq<Call>)
    ensures result.MissingConfig? <==> !Config.AllSet(env, Config.RequiredVars)
    ensures result.MissingConfig? ==> calls == [] && exists i | 0 <= i < |Config.RequiredVars| ::
              && result.error.name == Config.RequiredVars[i]
              && !Config.IsSet(env, Config.RequiredVars[i])
              && Config.AllSet(env, Config.RequiredVars[..i])
    ensures !result.MissingConfig? ==>
              IngestContract(env, script, chunkSize, chunkOverlap, fileExists, load, split, result, calls)
  {
    var check := Config.CheckRequired(env, Config.RequiredVars);
    if check.Fail? {
      return MissingConfig(check.error), [];
    }
    result, calls := IngestPdf(env, script, chunkSize, chunkOverlap, fileExists, load, split);
  }
}
