/**
 * Retrieval and answer assembly (src/search.py): the default for `k`, the
 * report `format_search_results` prints, and `ask_question`, which refuses
 * at once when nothing is retrieved and otherwise hands a numbered context
 * block and the question to the prompt | model | parser chain. The store
 * and the chain are function parameters; the score of a result is the text
 * `f"{score:.4f}"` already rendered.
 */
module Search {
  import opened Wrappers
  import opened Text
  import opened Numerals
  import opened Documents

  /** One retrieved chunk and its distance score, as text. */
  datatype SearchResult = SearchResult(doc: Document, score: string)

  /** The fixed sentence returned when nothing is retrieved. */
  const Refusal: string := "Não tenho informações necessárias para responder sua pergunta."

  // ---------------------------------------------------------------------
  // search_similar_documents

  /** `search_similar_documents(query, k)`: only a missing `k` is replaced
      by SEARCH_K; an explicit one, 0 included, goes to the store as given. */
  function SearchSimilarDocuments(query: string, k: Option<int>, searchK: int,
                                  similaritySearch: (string, int) -> seq<SearchResult>): (r: seq<SearchResult>)
    ensures k.None? ==> r == similaritySearch(query, searchK)
    ensures k.Some? ==> r == similaritySearch(query, k.value)
  {
    var n := if k.None? then searchK else k.value;
    similaritySearch(query, n)
  }

  // ---------------------------------------------------------------------
  // format_search_results

  /** `"=" * 60`. */
  const Separator: string := Repeat('=', 60)

  const HeaderPrefix: string := "Resultado "

  const MetadataTitle: string := "\nMetadados:"

  /** `f"Resultado {i} (score: {score:.4f})"`. */
  function Header(n: nat, score: string): string {
    HeaderPrefix + Decimal(n) + " (score: " + score + ")"
  }

  /** `f"\nTexto:\n{doc.page_content.strip()}"`. */
  function TextBlock(content: string): string {
    "\nTexto:\n" + Strip(content)
  }

  /** `f"  {key}: {value}"`. */
  function MetadataLine(entry: (string, Scalar)): string {
    "  " + entry.0 + ": " + Render(entry.1)
  }

  /** The `"  key: value"` lines, one per entry, in the dict's order. */
  function MetadataLines(m: Metadata): (r: seq<string>)
    ensures |r| == |m|
    ensures forall i | 0 <= i < |m| :: r[i] == MetadataLine(m[i])
  {
    if m == [] then [] else MetadataLines(m[..|m| - 1]) + [MetadataLine(m[|m| - 1])]
  }

  /** The metadata part of a block: nothing at all, not even the title,
      for empty metadata. */
  function MetadataSection(m: Metadata): seq<string> {
    if m == [] then [] else [MetadataTitle] + MetadataLines(m)
  }

  /** The lines appended for the n-th result. */
  function ResultBlock(n: nat, r: SearchResult): seq<string> {
    BlockHead(n, r) + BlockTail(r.doc.metadata)
  }

  /** A block's fixed lines: the framed header and the text. */
  function BlockHead(n: nat, r: SearchResult): seq<string> {
    [Separator, Header(n, r.score), Separator, TextBlock(r.doc.content)]
  }

  /** A block's metadata section and the empty line that closes it. */
  function BlockTail(m: Metadata): seq<string> {
    MetadataSection(m) + [""]
  }

  /** The list `output` once all results are appended, numbered from 1. */
  function ReportLines(rs: seq<SearchResult>): seq<string> {
    if rs == [] then [] else ReportLines(rs[..|rs| - 1]) + ResultBlock(|rs|, rs[|rs| - 1])
  }

  /** `format_search_results(results)`. */
  method FormatSearchResults(results: seq<SearchResult>) returns (report: string)
    ensures report == Join("\n", ReportLines(results))
    ensures report == "" <==> results == []
  {
    var output: seq<string> := [];
    for i := 0 to |results|
      invariant output == ReportLines(results[..i])
    {
      output := AppendResult(output, i + 1, results[i]);
      ReportLinesExtend(results, i);
    }
    assert results[..|results|] == results;
    report := Join("\n", output);
    ReportEmptyIff(results);
  }

  lemma ReportLinesExtend(rs: seq<SearchResult>, i: nat)
    requires i < |rs|
    ensures ReportLines(rs[..i + 1]) == ReportLines(rs[..i]) + ResultBlock(i + 1, rs[i])
  {
    assert rs[..i + 1][..i] == rs[..i];
  }

  /** The report is empty exactly when there are no results. */
  lemma ReportEmptyIff(rs: seq<SearchResult>)
    ensures Join("\n", ReportLines(rs)) == "" <==> rs == []
  {
    if rs != [] {
      ReportStartsWithSeparator(rs);
      JoinStartsWithFirst("\n", ReportLines(rs));
      FirstCharacters();
    }
  }

  /** The body of the loop over the results: the block of the n-th result. */
  method AppendResult(output: seq<string>, n: nat, r: SearchResult) returns (out: seq<string>)
    ensures out == output + ResultBlock(n, r)
  {
    out := AppendHead(output, n, r);
    out := AppendTail(out, r.doc.metadata);
    ConcatAssociative(output, BlockHead(n, r), BlockTail(r.doc.metadata));
  }

  lemma ConcatAssociative(a: seq<string>, b: seq<string>, c: seq<string>)
    ensures a + b + c == a + (b + c)
  {
  }

  /** The metadata section, when there is metadata, and the closing empty
      line. */
  method AppendTail(output: seq<string>, metadata: Metadata) returns (out: seq<string>)
    ensures out == output + BlockTail(metadata)
  {
    out := output;
    if metadata != [] {
      out := out + [MetadataTitle];
      out := AppendMetadata(out, metadata);
      ConcatAssociative(output, [MetadataTitle], MetadataLines(metadata));
    } else {
      assert output + MetadataSection(metadata) == output;
    }
    out := out + [""];
    ConcatAssociative(output, MetadataSection(metadata), [""]);
  }

  /** The framed header and the text of a result. */
  method AppendHead(output: seq<string>, n: nat, r: SearchResult) returns (out: seq<string>)
    ensures out == output + BlockHead(n, r)
  {
    var separator, header, text := Separator, Header(n, r.score), TextBlock(r.doc.content);
    out := output + [separator];
    out := out + [header];
    out := out + [separator];
    out := out + [text];
    assert out == output + [separator, header, separator, text];
  }

  /** The inner loop: one `"  key: value"` line per metadata entry. */
  method AppendMetadata(output: seq<string>, metadata: Metadata) returns (out: seq<string>)
    ensures out == output + MetadataLines(metadata)
  {
    out := output;
    for j := 0 to |metadata|
      invariant out == output + MetadataLines(metadata[..j])
    {
      out := out + [MetadataLine(metadata[j])];
      assert metadata[..j + 1][..j] == metadata[..j];
    }
    assert metadata[..|metadata|] == metadata;
  }

  lemma FirstCharacters()
    ensures |Separator| == 60 && Separator[0] == '='
    ensures |HeaderPrefix| == 10 && HeaderPrefix[0] == 'R'
    ensures |MetadataTitle| == 11 && MetadataTitle[0] == '\n' && MetadataTitle[1] == 'M'
  {
  }

  /** How the lines of a block begin, which tells their kinds apart. */
  lemma LineStarts(n: nat, score: string, content: string, entry: (string, Scalar))
    ensures Header(n, score)[0] == 'R'
    ensures |TextBlock(content)| >= 2 && TextBlock(content)[0] == '\n' && TextBlock(content)[1] == 'T'
    ensures MetadataLine(entry)[0] == ' '
  {
  }

  /** The lines of a metadata section begin with a newline or a space. */
  lemma SectionLineStarts(m: Metadata)
    ensures forall i | 0 <= i < |MetadataSection(m)| ::
              MetadataSection(m)[i] != [] && MetadataSection(m)[i][0] in {'\n', ' '}
  {
    FirstCharacters();
    if m != [] {
      forall i | 0 <= i < |m| ensures MetadataLine(m[i])[0] == ' ' {
        LineStarts(0, "", "", m[i]);
      }
    }
  }

  lemma ReportStartsWithSeparator(rs: seq<SearchResult>)
    requires rs != []
    ensures ReportLines(rs) != [] && ReportLines(rs)[0] == Separator
  {
    if |rs| > 1 {
      ReportStartsWithSeparator(rs[..|rs| - 1]);
    }
  }

  /** A block holds exactly two separator lines. */
  lemma SeparatorsOfBlock(n: nat, r: SearchResult)
    ensures multiset(ResultBlock(n, r))[Separator] == 2
  {
    var head, tail := BlockHead(n, r), BlockTail(r.doc.metadata);
    assert multiset(head + tail) == multiset(head) + multiset(tail);
    SeparatorsOfBlockHead(n, r);
    SeparatorsOfBlockTail(r.doc.metadata);
  }

  lemma SeparatorsOfBlockHead(n: nat, r: SearchResult)
    ensures multiset(BlockHead(n, r))[Separator] == 2
  {
    FirstCharacters();
    LineStarts(n, r.score, r.doc.content, ("", Null));
  }

  lemma SeparatorsOfBlockTail(m: Metadata)
    ensures multiset(BlockTail(m))[Separator] == 0
  {
    FirstCharacters();
    SectionLineStarts(m);
    assert Separator !in BlockTail(m);
  }

  /** Every result is framed by exactly two separator lines; no other line
      of the report is one. */
  lemma {:induction false} SeparatorsPerResult(rs: seq<SearchResult>)
    ensures multiset(ReportLines(rs))[Separator] == 2 * |rs|
  {
    if rs != [] {
      var init, r := rs[..|rs| - 1], rs[|rs| - 1];
      SeparatorsPerResult(init);
      SeparatorsOfBlock(|rs|, r);
      assert ReportLines(rs) == ReportLines(init) + ResultBlock(|rs|, r);
    }
  }

  /** Whether a report line is a result header. */
  predicate IsHeader(line: string) {
    HeaderPrefix <= line
  }

  /** The header lines of a report, in order. */
  function Headers(lines: seq<string>): seq<string> {
    if lines == [] then [] else (if IsHeader(lines[0]) then [lines[0]] else []) + Headers(lines[1..])
  }

  lemma {:induction false} HeadersAppend(a: seq<string>, b: seq<string>)
    ensures Headers(a + b) == Headers(a) + Headers(b)
  {
    if a == [] {
      assert a + b == b;
    } else {
      assert (a + b)[1..] == a[1..] + b;
      HeadersAppend(a[1..], b);
    }
  }

  lemma {:induction false} HeadersNone(lines: seq<string>)
    requires forall i | 0 <= i < |lines| :: lines[i] == [] || lines[i][0] != 'R'
    ensures Headers(lines) == []
  {
    if lines != [] {
      FirstCharacters();
      HeadersNone(lines[1..]);
    }
  }

  lemma HeadersOfOne(line: string)
    ensures Headers([line]) == if IsHeader(line) then [line] else []
  {
    assert [line][1..] == [];
  }

  /** The four fixed lines that open a block hold one header, its own. */
  lemma HeadersOfBlockHead(n: nat, r: SearchResult)
    ensures Headers(BlockHead(n, r)) == [Header(n, r.score)]
  {
    FirstCharacters();
    LineStarts(n, r.score, r.doc.content, ("", Null));
    var h, text := Header(n, r.score), TextBlock(r.doc.content);
    assert IsHeader(h);
    HeadersOfOne(h);
    HeadersNone([Separator]);
    HeadersNone([text]);
    HeadersAppend([Separator], [h]);
    HeadersAppend([Separator, h], [Separator]);
    HeadersAppend([Separator, h, Separator], [text]);
    assert [Separator] + [h] == [Separator, h];
    assert [Separator, h] + [Separator] == [Separator, h, Separator];
    assert [Separator, h, Separator] + [text] == [Separator, h, Separator, text];
  }

  /** The metadata section and the closing empty line hold no header. */
  lemma HeadersOfBlockTail(m: Metadata)
    ensures Headers(BlockTail(m)) == []
  {
    SectionLineStarts(m);
    HeadersNone(MetadataSection(m) + [""]);
  }

  /** The only header line of a result's block is its own header. */
  lemma HeadersOfBlock(n: nat, r: SearchResult)
    ensures Headers(ResultBlock(n, r)) == [Header(n, r.score)]
  {
    HeadersOfBlockHead(n, r);
    HeadersOfBlockTail(r.doc.metadata);
    HeadersAppend(BlockHead(n, r), BlockTail(r.doc.metadata));
  }

  /** The headers expected of a report: the i-th numbered i, carrying the
      score of the i-th result. */
  function ExpectedHeaders(rs: seq<SearchResult>): (r: seq<string>)
    ensures |r| == |rs|
  {
    if rs == [] then [] else ExpectedHeaders(rs[..|rs| - 1]) + [Header(|rs|, rs[|rs| - 1].score)]
  }

  /** The report holds one header per result, in input order, numbered
      from 1. */
  lemma {:induction false} HeadersInInputOrder(rs: seq<SearchResult>)
    ensures Headers(ReportLines(rs)) == ExpectedHeaders(rs)
  {
    if rs != [] {
      var init, r := rs[..|rs| - 1], rs[|rs| - 1];
      HeadersInInputOrder(init);
      HeadersOfBlock(|rs|, r);
      HeadersAppend(ReportLines(init), ResultBlock(|rs|, r));
    }
  }

  /** The k-th expected header is the header of result k + 1. */
  lemma {:induction false} ExpectedHeaderAt(rs: seq<SearchResult>, k: nat)
    requires k < |rs|
    ensures ExpectedHeaders(rs)[k] == Header(k + 1, rs[k].score)
  {
    if k < |rs| - 1 {
      ExpectedHeaderAt(rs[..|rs| - 1], k);
    }
  }

  /** A block lists its result's metadata exactly when there is some. */
  lemma MetadataShownIffPresent(n: nat, r: SearchResult)
    ensures MetadataTitle in ResultBlock(n, r) <==> r.doc.metadata != []
  {
    FirstCharacters();
    var b := ResultBlock(n, r);
    if r.doc.metadata == [] {
      var text := TextBlock(r.doc.content);
      LineStarts(n, r.score, r.doc.content, ("", Null));
      assert text[1] != MetadataTitle[1];
      assert b == [Separator, Header(n, r.score), Separator, text, ""];
    } else {
      assert b[4] == MetadataTitle;
    }
  }

  // ---------------------------------------------------------------------
  // ask_question

  /** `f"[Trecho {i} - Score: {score:.4f}]:\n"`, the heading of an excerpt. */
  function ExcerptHeading(n: nat, score: string): string {
    "[Trecho " + Decimal(n) + " - Score: " + score + "]:\n"
  }

  /** `f"[Trecho {i} - Score: {score:.4f}]:\n{doc.page_content.strip()}\n"`. */
  function ContextPart(n: nat, r: SearchResult): string {
    ExcerptHeading(n, r.score) + Strip(r.doc.content) + "\n"
  }

  /** An excerpt begins with its heading and ends with a newline. */
  lemma ContextPartShape(n: nat, r: SearchResult)
    ensures ExcerptHeading(n, r.score) <= ContextPart(n, r)
    ensures ContextPart(n, r)[|ContextPart(n, r)| - 1] == '\n'
  {
  }

  /** The list `context_parts`: one part per result, numbered from 1 in
      retrieval order. */
  function ContextParts(rs: seq<SearchResult>): (r: seq<string>)
    ensures |r| == |rs|
  {
    seq(|rs|, i requires 0 <= i < |rs| => ContextPart(i + 1, rs[i]))
  }

  /** `"\n".join(context_parts)`. */
  function Context(rs: seq<SearchResult>): string {
    Join("\n", ContextParts(rs))
  }

  /** Between excerpt i and excerpt i + 1 there is a blank line: the first
      i excerpts joined end in a newline, one more newline follows, and the
      rest begins with the heading of excerpt i + 1. */
  lemma ExcerptsSeparatedByBlankLine(rs: seq<SearchResult>, i: nat)
    requires 0 < i < |rs|
    ensures var parts := ContextParts(rs);
            && Context(rs) == Join("\n", parts[..i]) + "\n" + Join("\n", parts[i..])
            && Join("\n", parts[..i])[|Join("\n", parts[..i])| - 1] == '\n'
            && ExcerptHeading(i + 1, rs[i].score) <= Join("\n", parts[i..])
  {
    JoinSplit("\n", ContextParts(rs), i);
    ExcerptsBeforeEndInNewline(rs, i);
    ExcerptsAfterStartWithHeading(rs, i);
  }

  lemma ExcerptsBeforeEndInNewline(rs: seq<SearchResult>, i: nat)
    requires 0 < i < |rs|
    ensures var before := ContextParts(rs)[..i];
            Join("\n", before)[|Join("\n", before)| - 1] == '\n'
  {
    var before := ContextParts(rs)[..i];
    assert before[i - 1] == ContextPart(i, rs[i - 1]);
    ContextPartShape(i, rs[i - 1]);
    JoinEndsWithLast("\n", before);
  }

  lemma ExcerptsAfterStartWithHeading(rs: seq<SearchResult>, i: nat)
    requires 0 <= i < |rs|
    ensures ExcerptHeading(i + 1, rs[i].score) <= Join("\n", ContextParts(rs)[i..])
  {
    var after := ContextParts(rs)[i..];
    assert after[0] == ContextPart(i + 1, rs[i]);
    ContextPartShape(i + 1, rs[i]);
    JoinStartsWithFirst("\n", after);
    PrefixTransitive(ExcerptHeading(i + 1, rs[i].score), after[0], Join("\n", after));
  }

  /** A call into a service outside the model. */
  datatype Call =
    | Retrieve(query: string, k: int)                // store.similarity_search_with_score
    | InvokeChain(context: string, question: string) // (prompt | llm | parser).invoke

  /** `ask_question(question)`. */
  method AskQuestion(question: string, searchK: int,
                     similaritySearch: (string, int) -> seq<SearchResult>,
                     chain: (string, string) -> string)
    returns (answer: string, calls: seq<Call>)
    ensures var results := similaritySearch(question, searchK);
      && (results == [] ==> answer == Refusal && calls == [Retrieve(question, searchK)])
      && (results != [] ==> answer == chain(Context(results), question)
                            && calls == [Retrieve(question, searchK), InvokeChain(Context(results), question)])
  {
    var results := similaritySearch(question, searchK);
    if results == [] {
      return Refusal, [Retrieve(question, searchK)];
    }
    var contextParts: seq<string> := [];
    for i := 0 to |results|
      invariant contextParts == ContextParts(results[..i])
    {
      contextParts := contextParts + [ContextPart(i + 1, results[i])];
    }
    assert results[..|results|] == results;
    var context := Join("\n", contextParts);
    answer := chain(context, question);
    calls := [Retrieve(question, searchK), InvokeChain(context, question)];
  }
}
