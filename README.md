# A verified model of a PDF question-answering pipeline

The repository has two command-line tools and a module between them.

- `src/ingest.py` loads one PDF and splits it into chunks. It cleans each chunk's metadata, numbers the chunks `doc-0000`, `doc-0001`, … and writes them to a Postgres vector store in one call.
- `src/search.py` retrieves the chunks nearest to a question. It formats them as a readable report, or numbers them into a context block for a language model. When nothing is retrieved, it refuses at once with a fixed sentence.
- `src/chat.py` is an interactive loop. It reads a question, leaves on an exit word or Ctrl-C, re-prompts on an empty line, and otherwise prints the answer or the error.

This project models the logic of those three files in Dafny and proves what it promises. The PDF loader, the splitter, the embedding and chat models and the vector store are outside services. Each one is a function parameter of the model. The operations return the calls they make into those services, in order, so "the store is never written" and "the chain is invoked once" are facts about a result.

The files:

- `wrappers.dfy`: Option and pass/fail outcome types.
- `text.dfy`: `str.strip()`, `str.lower()`, `str.join()`, splitting on one character, and Python's string order. All are at the ASCII level.
- `numerals.dfy`: decimal digits, zero padding, and the value of a digit string.
- `config.dfy`: the environment and the required-variable check.
- `paths.dfy`: the part of `pathlib` used to locate the PDF.
- `documents.dfy`: LangChain documents, metadata values and their `str()`.
- `ingest.dfy`: `ingest_pdf` and the script around it.
- `search.dfy`: `search_similar_documents`, `format_search_results` and `ask_question`.
- `chat.dfy`: the chat loop and the script around it.

Where a source operation works by appending to a list in a loop, the model does the same. `format_search_results`, the `context_parts` loop of `ask_question`, the required-variable loop and the chat's `while True` are all methods with loops. The required-variable loop states its property directly: it passes exactly when every variable is set, and otherwise it names the first missing one. The other three are proved equal to a specification function, and their properties are proved as lemmas about that function.

The chat loop is specified by `Chat.Session`, which takes what a turn does with EOFError as a parameter. `ReportAndGoOn` is the source as written: the error is printed and the loop reads on. `SayGoodbye` is the correction described under Findings. `Chat.Run` is the loop as written, and the session lemmas hold for both.

## Model

| member | source | states |
|---|---|---|
| Config.CheckRequired | src/ingest.py:25-28 | Passes exactly when every required variable is set and non-empty. A failure names an unset or empty variable, and every variable before it in the list is set, so the first missing one is reported. |
| Config.GetEnv | src/ingest.py:33-34 | `os.getenv(name, default)`: the default replaces only a missing variable. An empty one is returned as it is. |
| Paths.Parse | src/ingest.py:44 | A parsed path holds no empty, "." or slash-containing component. It is absolute exactly when the string starts with "/". |
| Paths.ParsePathString | src/ingest.py:44 | Printing a normal path and parsing the text again gives the same path. |
| Paths.Parent | src/ingest.py:41 | `.parent` drops the last component and keeps whether the path is absolute. The root and "." are their own parents. |
| Paths.Concat | src/ingest.py:42 | `base / rel` appends the components of a relative `rel` to `base`. An absolute `rel` replaces `base`. |
| Paths.ResolvePdfPath | src/ingest.py:40-44 | The resolved PDF path is normal, and it is absolute exactly when the setting or the script path is. |
| Paths.ResolveAbsoluteUnchanged | src/ingest.py:43-44 | An absolute PDF_PATH is used unchanged, wherever the script lives. |
| Paths.ResolveRelativeUnderRoot | src/ingest.py:40-42 | For a script at `<root>/<dir>/<file>`, a relative PDF_PATH resolves to `<root>` followed by its own components. |
| Ingest.CleanMetadata | src/ingest.py:83 | Every kept entry has a value other than "" and None, and comes from the input. Every input entry with such a value is kept. |
| Ingest.CleanMetadataAppend | src/ingest.py:83 | The metadata filter works entry by entry, so kept entries stay in their original order. |
| Ingest.CleanMetadataUniqueKeys | src/ingest.py:83 | Cleaning adds no key and duplicates none: a dict stays a dict. |
| Ingest.CleanMetadataKeepsClean | src/ingest.py:83 | Metadata with nothing to drop is left exactly as it is. |
| Ingest.CleanMetadataIdempotent | src/ingest.py:83 | Cleaning twice is cleaning once. |
| Ingest.Enrich | src/ingest.py:80-86 | One document per split, at the same position, with the same text and with cleaned metadata. |
| Ingest.DocIdShape | src/ingest.py:89 | Id i is "doc-" followed by digits whose value is i. It is at least 8 characters long, and exactly 8 when i < 10000. |
| Ingest.DocIdInjective | src/ingest.py:89 | Two ids are equal if and only if their numbers are. |
| Ingest.IdsDistinct | src/ingest.py:89 | The ids of one run are pairwise distinct. |
| Ingest.DocIdsOrdered | src/ingest.py:89 | Below 10000, a larger number gives an id that is greater as a Python string. |
| Ingest.IdsIncrease | src/ingest.py:89 | In a run of at most 10000 chunks, the ids increase as strings. |
| Ingest.FirstIds | src/ingest.py:89 | Numbering starts at `doc-0000`, then `doc-0001`. |
| Ingest.ExitStatus | src/ingest.py:72-74 | The exit status is 0 only after a successful ingestion. Zero chunks exit with status 1. |
| Ingest.IngestPdf | src/ingest.py:36-105 | A missing file is reported before anything is loaded. Zero chunks stop the run after loading, before the store is opened or written. Otherwise the store is opened once and written once, with the enriched chunks and one id per chunk. No other calls are made. |
| Ingest.Run | src/ingest.py:25-28 | The configuration error happens exactly when a required variable is missing. In that case it names the first missing variable and no service is called. Otherwise the run is `ingest_pdf`. |
| Numerals.ValueOfZeroPadded | src/ingest.py:89 | The digits of `{i:04d}` read back as i. |
| Numerals.DecimalLength | src/ingest.py:89 | i has at most k decimal digits exactly when i < 10^k. |
| Numerals.LexLessMatchesValue | src/ingest.py:89 | For digit strings of equal length, string order is numeric order. |
| Search.SearchSimilarDocuments | src/search.py:83-88 | Only a missing `k` is replaced by SEARCH_K. An explicit `k`, including 0, goes to the store as given. |
| Search.FormatSearchResults | src/search.py:91-116 | The report is the "\n"-join of the lines built for the results in order. It is empty exactly when there are no results. |
| Search.AppendResult | src/search.py:103-114 | One iteration of the results loop appends exactly that result's block. |
| Search.AppendMetadata | src/search.py:111-112 | Appends one `"  key: value"` line per metadata entry, in dict order. |
| Search.MetadataLines | src/search.py:111-112 | Line i is `"  " + key + ": " + str(value)` of entry i, and there is one line per entry. |
| Search.ReportEmptyIff | src/search.py:101-116 | The report is the empty string exactly when there are no results. |
| Search.SeparatorsPerResult | src/search.py:104-106 | Exactly two lines per result are the 60-"=" separator, and no other line is. |
| Search.HeadersInInputOrder | src/search.py:103-105 | The header lines of the report are exactly one per result, in input order. |
| Search.ExpectedHeaderAt | src/search.py:103-105 | The k-th header is `Resultado k+1 (score: <score of result k+1>)`. |
| Search.MetadataShownIffPresent | src/search.py:109-112 | A block contains the "Metadados:" title exactly when its result has metadata. |
| Search.ContextPartShape | src/search.py:166 | Each excerpt starts with its `[Trecho i - Score: s]:` heading and ends with a newline. |
| Search.ExcerptsSeparatedByBlankLine | src/search.py:166-168 | Between excerpt i and excerpt i+1 the context holds the newline that ends excerpt i, then the joining newline, then the heading of excerpt i+1. That makes one blank line. |
| Search.AskQuestion | src/search.py:158-174 | With no results, the refusal sentence is returned after a single retrieval call, and the chain is never invoked. Otherwise the chain is invoked once, with the context built from all results in order and the unmodified question, and its output is the answer. |
| Chat.ClassifyAsks | src/chat.py:38-52 | A line is asked exactly when it is neither an exit word nor blank after stripping. What is asked is the stripped line, not lower-cased. A line leaves exactly when its stripped, lower-cased form is an exit word. |
| Chat.PaddedExitWordLeaves | src/chat.py:38-43 | `"  SAIR "` ends the chat. |
| Chat.SentenceIsAsked | src/chat.py:38-52 | `"sair agora"` is asked as a question, not taken as an exit word. |
| Chat.LongIsNoExitWord | src/chat.py:41 | No line of more than four characters after stripping is an exit word. |
| Chat.ExitIgnoresSurroundingSpace | src/chat.py:38-41 | Surrounding whitespace does not change whether a line exits. |
| Chat.ExitIgnoresCase | src/chat.py:41 | Letter case does not change whether a line exits. |
| Chat.StepFacts | src/chat.py:35-64 | One turn asks exactly an asking line's question. It ends the loop exactly on an exit word, Ctrl-C, or Ctrl-C during `ask_question`, and also on EOF in the corrected loop. An error from `ask_question` is shown and the loop continues. As written, so is an EOF. Output is only appended to, and a turn that ends the loop prints the farewell last. |
| Chat.Run | src/chat.py:35-64 | The loop as written, with its `break` and `continue`, computes exactly the session of the classified events, EOF included. It reads events up to and including the first one that ends it. |
| Chat.Turn | src/chat.py:36-64 | One pass of the loop body is one step of the session as written. An EOF prints "EOF when reading a line" as an error and the loop goes on. |
| Chat.SessionAsked | src/chat.py:35-64 | In the loop as written and in the corrected one, the questions handed to `ask_question` are those of the asking lines before the loop stops, in typing order. Their number is the number of such lines. |
| Chat.SessionStopsIff | src/chat.py:35-64 | In either loop, the chat ends before the input runs out exactly when some event ends it. |
| Chat.ChatAsksOnlyAcceptable | src/chat.py:38-52 | In either loop, only stripped, non-empty lines that are not exit words ever reach `ask_question`. |
| Chat.EndsWithFarewell | src/chat.py:35-64 | In either loop, whenever the chat ends, the last thing printed is the farewell. |
| Chat.EofGoesOnAsWritten | src/chat.py:36-64 | As written, an EOF prints one error and the loop reads on. On a terminal, the chat therefore continues after Ctrl-D. |
| Chat.EofLoopsForeverAsWritten | src/chat.py:36-64 | As written, a closed input never ends the loop: any number of EOFs prints that many errors and asks nothing. |
| Chat.EofEndsSession | src/chat.py:59-61 | In the corrected loop, the first EOF prints the farewell and ends the chat. |
| Chat.SessionsAgreeWithoutEof | src/chat.py:35-64 | On any input without an EOF, the corrected loop behaves exactly like the source. |
| Chat.Launch | src/chat.py:18-21 | The chat does not start when a required variable is missing, and the error names the first missing one. Otherwise the run is the chat session as written. |

## Left out

- Loading the PDF and splitting it are library calls whose results are parameters: `load` and `split`. CHUNK_SIZE and CHUNK_OVERLAP are passed to the splitter and nothing else is assumed about them. Their `int()` parsing is not modelled.
- The embedding model, the vector store, the chat model, the prompt template and the output parser are outside services. The model records the calls made to them, with their arguments.
- The text of `PROMPT_TEMPLATE` is a constant with no behaviour. `get_vector_store` in `src/search.py` is not modelled. Its default collection name, "pdf_documents", only matters when the variable is unset, and both scripts refuse to start in that case.
- Scores are floats formatted with `:.4f`. The model carries that text as an opaque string. It does not model distance semantics or the order the store returns.
- TEMPERATURE, SEARCH_K and the model names are read from the environment as floats and ints. That parsing is not modelled, and SEARCH_K is a parameter.
- `load_dotenv`, `print` banners and progress lines, and `input()` are I/O. The chat's input is a sequence of events, and its output is a sequence of message kinds rather than the exact printed text.
- The `__main__` demonstration block of `src/search.py` is not modelled.
- `Text.Strip` and `Text.Lower` work on ASCII. They are not Python's full Unicode `str.strip()` and `str.lower()`: for example, non-ASCII whitespace is not stripped and non-ASCII letters are not lower-cased.
- `Paths` models POSIX `pathlib` only. Windows drive letters, a leading "//" root and ".." components are not modelled.
- `Ingest.IngestPdf` folds constructing the embeddings client and the `PGVector` store into one `OpenStore` call. The source does both at lines 95-102, one after the other.
- Ingest.IngestPdf: does not model failures of the outside services, which it treats as always returning. In the source, an exception from `PyPDFLoader.load`, the splitter, `PGVector` or `add_documents` ends `ingest_pdf` with status 1, after the calls already made (src/ingest.py:60-70, 95-105).
- Search.AskQuestion: does not model a failing retrieval or chain call. In the source, such an exception propagates out of `ask_question` (src/search.py:158, 172). In the chat, the `Failure` reply stands for it.

## Findings

| source | as written | input that shows it | evidently intended | confidence | as-written member | corrected member |
|---|---|---|---|---|---|---|
| src/chat.py:36-64 | Once standard input is closed, `input()` raises EOFError. EOFError is an `Exception`, so the handler at lines 62-64 prints "✗ Erro ao processar pergunta: EOF when reading a line" and continues. On a closed pipe or file, the next `input()` raises again, so the loop never ends. On a terminal, Ctrl-D raises EOFError only once: the chat prints one error and reads on. | Piping a file of questions into the chat with no exit word at the end. | A closed input ends the chat the way Ctrl-C does, with the farewell message. | not executed | Chat.EofLoopsForeverAsWritten | Chat.EofEndsSession |
