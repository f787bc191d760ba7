# RAG-Agent chat loop — a verified Dafny model

RAG-Agent answers questions about a local document collection. An ingest
script loads PDFs and text files, splits them into chunks and stores their
embeddings in a Chroma vector store. The chat script (`chat.py`) then runs an
interactive loop. For each line the user types, it retrieves up to four nearest
chunks, asks a local language model for an answer grounded in them, and prints
the answer followed by a de-duplicated list of the sources it retrieved.

Almost all of that work is done by library calls. This project models the
logic `chat.py` implements itself:

- **Context formatting** (`format_docs`): the page contents of the retrieved
  documents, in retrieval order, joined by a blank line (`"\n\n"`).
- **Source citations**: each document's label is its `source` metadata
  (`"Unknown"` when missing), followed by ` (page N)` with a 1-based page number
  when the document has a page. The loop prints a `Sources:` header only when
  something was retrieved. It then prints each label once, in order of first
  occurrence, and remembers the labels already printed in a `seen` set.
- **Input classification**: each input line is stripped. Its lower-case form
  `exit` or `quit` ends the loop, an empty line is skipped, and anything else is
  asked as a question.

Files:

- `wrappers.dfy` — `Option`, for metadata keys that may be missing.
- `pystr.dfy` — the Python `str` behaviour the loop relies on: `strip()`,
  `lower()`, `str()` of a non-negative integer and `sep.join(parts)`. Each comes
  with the lemmas that characterise it.
- `occurrences.dfy` — keeping the first occurrence of every value and dropping
  later repeats. It proves that the result has no repeats, loses nothing, keeps
  first-occurrence order, and is the only list with those three properties.
- `chat.dfy` — documents, `FormatDocs`, `Label`, `SourceLabels`, the
  `PrintSources` loop, `Classify` and the `Repl` loop.

`Repl` takes the user's input as a sequence of lines and the retriever as a
function `retrieve: string -> seq<Doc>`. For every question, it records what
the source printer shows: a `Turn` holding the question, whether the header was
printed, and the labels.

Notes on what the code does, which the model follows:

- **De-duplication key.** `chat.py:79-82` de-duplicates by the rendered label
  string, not by the (source, page) pair. Two different pairs can render the
  same label, for example source `a.pdf (page 1)` with no page and source
  `a.pdf` on page 0. A missing source and the literal source `Unknown` also
  collide. `Chat.LabelCollision` shows both merges.
- **Two retrievals.** `chat.py:64` and `chat.py:67` each call the retriever:
  once inside the answer chain and once for the printed sources. The model
  covers only the second call, through `retrieve`.
- **Order of the checks.** The exit check comes before the empty check, as at
  `chat.py:55-60`. The two checks cannot overlap, because both exit words are
  non-empty. `Chat.ClassifySkipIff` shows that a line is skipped exactly when
  it is all whitespace.

## Model

| member | source | states |
|---|---|---|
| `PyStr.Strip` | chat.py:53 | The stripped line is a contiguous piece of the input. Everything cut off before and after it is whitespace, and it neither starts nor ends with whitespace. |
| `PyStr.StripExact` | chat.py:53 | Stripping removes exactly the whitespace border. Whatever whitespace surrounds a string without whitespace at either end, stripping returns that string. |
| `PyStr.StripIdempotent` | chat.py:53 | Stripping an already stripped line changes nothing. |
| `PyStr.StripEmptyIff` | chat.py:53 | A line strips to the empty string exactly when it is all whitespace. |
| `PyStr.LowerEqualsIff` | chat.py:55 | The ASCII lower-casing of `s` equals a lower-case word exactly when `s` spells that word with each letter in either case. For the words `exit` and `quit` this agrees with Python's `lower()`. |
| `PyStr.NatToDecimal` | chat.py:79 | The page number is printed as a non-empty run of decimal digits, with no sign and no leading zero. |
| `PyStr.DecimalRoundTrip` | chat.py:79 | Reading the printed page number back gives the number that was printed. |
| `PyStr.JoinLayout` | chat.py:39 | The joined string has each part at its offset, in order. Exactly one separator follows every part except the last. The string ends where the last part ends. |
| `PyStr.JoinAppend` | chat.py:39 | For non-empty lists a and b, joining a + b is joining a, then one separator, then joining b. |
| `Chat.FormatDocsLayout` | chat.py:38-39 | No documents give the empty context, and one document gives exactly its content. Otherwise each content stands at its offset in retrieval order, followed by one blank line except the last, with nothing else in the context. |
| `Chat.FormatDocsAppend` | chat.py:38-39 | Formatting two non-empty batches of documents gives the two contexts with one blank line between them. |
| `Chat.SplitRenderedLabel` | chat.py:79 | A label of the form `<source> (page <p+1>)` parses back, from its right end, to the source and the 0-based page p. |
| `Chat.LabelRoundTrip` | chat.py:77-79 | For a document with a page, the label gives back its source (with `Unknown` substituted when missing) and its 0-based page. The page is printed 1-based and nothing is lost. |
| `Chat.LabelExamples` | chat.py:77-79 | Page 2 of `doc.pdf` is cited as `doc.pdf (page 3)` and page 0 as `page 1`. A document without a page is cited by its source alone, and one without a source as `Unknown`. |
| `Chat.SourceLabelsSpec` | chat.py:75-82 | The printed labels repeat nothing. Every document's label is printed, and nothing else is. There is at most one line per document and exactly one per distinct label, in order of first occurrence. |
| `Chat.LabelCollision` | chat.py:79-82 | De-duplication compares label strings. Documents with different (source, page) metadata whose labels coincide are printed once. |
| `Chat.PrintSources` | chat.py:73-82 | The source printer prints the header exactly when something was retrieved. The lines it prints equal `SourceLabels(docs)`. Its loop keeps `seen` equal to the set of labels printed so far. |
| `Chat.ClassifyExitIff` | chat.py:53-57 | A line ends the loop exactly when, after stripping, it spells `exit` or `quit` in any mix of cases. |
| `Chat.ClassifySkipIff` | chat.py:53-60 | A line is skipped exactly when it is all whitespace. |
| `Chat.ClassifyAsk` | chat.py:53-64 | Any other line is asked as the stripped line. The question is non-empty, has no whitespace at either end, and wrapping it in more whitespace asks the same question. |
| `Chat.TurnsWellFormed` | chat.py:52-83 | There are no more answered turns than input lines. Every turn asks a non-empty stripped question and shows that question's retrieval: the header exactly when something was retrieved, and its de-duplicated labels. |
| `Chat.Repl` | chat.py:52-83 | The loop stops at the first line that classifies as Exit, or at the end of input. It reads no line after the exit line, and its turns are those of the lines it read, one per question, in order. |
| `Occurrences.FirstOccurrences` | chat.py:75-82 | Label de-duplication keeps at most as many labels as there are documents. A value is kept exactly when it occurs in the input. |
| `Occurrences.FirstOccurrencesDistinct` | chat.py:80-82 | The de-duplicated list repeats nothing. |
| `Occurrences.FirstOccurrencesOrdered` | chat.py:76-82 | The de-duplicated list keeps the order in which values first occur. |
| `Occurrences.FirstOccurrencesUnique` | chat.py:75-82 | Any list that repeats nothing, holds exactly the input's values and keeps first-occurrence order is the de-duplicated list. |
| `Occurrences.FirstOccurrencesIdempotent` | chat.py:75-82 | De-duplicating a second time changes nothing. |
| `Occurrences.FirstOccurrencesCount` | chat.py:75-82 | The de-duplicated list has one element per distinct value of the input. |

## Left out

- All of `ingest.py`: directory, PDF and text loading, chunking by the library
  text splitter, and embedding into Chroma. These are library calls whose
  behaviour is not visible in the repository.
- The retriever and the vector store (`chat.py:16-22`). The `k=4` bound is
  enforced by the library. The model takes `retrieve` as an arbitrary function
  from question to documents, so a retriever that answers the same question
  differently on two calls is not represented.
- The language model, the prompt template and the answer chain
  (`chat.py:25-47`, `chat.py:64`): the answer text is not modelled.
  `FormatDocs` is modelled on its own, because the chain is left out.
- Console rendering (`chat.py:6-8`, `14`, `49`, `56`, `62`, `70`, `74`, `81`,
  `83`): Rich markup, panels, the status spinner, the greeting and goodbye
  lines, and the exact header text and line prefixes. The printed sources are
  modelled as a header flag and a sequence of labels.
- End of input and interrupts. `console.input` raising on end of input or
  Ctrl-C ends the Python program with an exception. In the model, `Repl`
  stops with `exited == false` when the lines run out.
- Exceptions from the retriever or the model: `chat.py` does not catch them,
  so they end the program. They are not modelled.
- `PyStr.LowerChar`: lower-cases ASCII letters only, where Python lower-cases
  all of Unicode. The only non-ASCII characters whose lower-case form contains
  ASCII letters are U+212A KELVIN SIGN (to `k`) and U+0130 (to `i` followed by
  a combining dot). Neither can make a line equal `exit` or `quit`, so
  `Classify` is unaffected.
- `Chat.Doc`: the `page` metadata is modelled as a non-negative integer or
  absent. The empty-string default at `chat.py:78` reads as absent. A page
  that is not a non-negative int is not modelled: a string page makes `page+1`
  raise, and a float or bool page prints differently. A `source` that is not
  a string is not modelled either.
