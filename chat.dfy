/**
  The logic of the interactive RAG agent's query loop: how retrieved documents
  become the context block of the prompt, how their source citations are
  rendered and de-duplicated, and how each input line is classified.
  Retrieval, the language model and console rendering are parameters or left out.
 */
module Chat {
  import opened Wrappers
  import opened PyStr
  import opened Occurrences

  /**
    A retrieved document: its text and the two metadata keys the loop reads.
    `page` is the 0-based page index a PDF loader attaches; a missing key and
    the empty-string default both read as `None`.
   */
  datatype Doc = Doc(pageContent: string, source: Option<string>, page: Option<nat>)

  /** What the loop does with one input line. */
  datatype Action = Exit | Skip | Ask(question: string)

  /** What one answered question prints besides the answer: the header and the source lines. */
  datatype Turn = Turn(question: string, sourcesHeader: bool, sources: seq<string>)

  const ContextSeparator: string := "\n\n"
  const UnknownSource: string := "Unknown"
  const PageOpen: string := " (page "
  const ExitWords: seq<string> := ["exit", "quit"]

  // ---------------------------------------------------------------------------
  // Context formatting

  /** The page contents of the documents, in retrieval order. */
  function Contents(docs: seq<Doc>): seq<string>
  {
    seq(|docs|, i requires 0 <= i < |docs| => docs[i].pageContent)
  }

  /** The context block handed to the prompt: the page contents joined by a blank line. */
  function FormatDocs(docs: seq<Doc>): string
  {
    Join(ContextSeparator, Contents(docs))
  }

  /**
    No documents give an empty context, one document gives exactly its content,
    and in general the contents stand in retrieval order, content `i` at
    `Offset(ContextSeparator, Contents(docs), i)`, each but the last followed by
    one blank line, the text ending where the last content ends.
   */
  lemma FormatDocsLayout(docs: seq<Doc>)
    ensures docs == [] ==> FormatDocs(docs) == ""
    ensures |docs| == 1 ==> FormatDocs(docs) == docs[0].pageContent
    ensures docs != [] ==>
      |FormatDocs(docs)| == PartEnd(ContextSeparator, Contents(docs), |docs| - 1)
    ensures forall i :: 0 <= i < |docs| ==>
      StandsAt(FormatDocs(docs), Offset(ContextSeparator, Contents(docs), i), docs[i].pageContent)
    ensures forall i :: 0 <= i < |docs| - 1 ==>
      StandsAt(FormatDocs(docs), PartEnd(ContextSeparator, Contents(docs), i), ContextSeparator)
  {
    if docs != [] {
      JoinLayout(ContextSeparator, Contents(docs));
    }
  }

  /** Formatting two non-empty batches of documents is formatting each and putting one blank line between. */
  lemma FormatDocsAppend(a: seq<Doc>, b: seq<Doc>)
    requires a != [] && b != []
    ensures FormatDocs(a + b) == FormatDocs(a) + ContextSeparator + FormatDocs(b)
  {
    assert Contents(a + b) == Contents(a) + Contents(b);
    JoinAppend(ContextSeparator, Contents(a), Contents(b));
  }

  // ---------------------------------------------------------------------------
  // Source labels

  /** The `source` metadata, `"Unknown"` when missing. */
  function SourceOf(d: Doc): string
  {
    match d.source
    case Some(s) => s
    case None => UnknownSource
  }

  /** The citation printed for a document: its source, and the 1-based page when it has one. */
  function Label(d: Doc): string
  {
    match d.page
    case Some(p) => SourceOf(d) + PageOpen + NatToDecimal(p + 1) + ")"
    case None => SourceOf(d)
  }

  /** Number of decimal digits that end `s`. */
  function TrailingDigits(s: string): (k: nat)
    ensures k <= |s| && AllDigits(s[|s| - k..])
    ensures k < |s| ==> !IsDigit(s[|s| - 1 - k])
  {
    if s == [] || !IsDigit(s[|s| - 1]) then 0 else 1 + TrailingDigits(s[..|s| - 1])
  }

  /**
    Reads a label of the form `<source> (page <n>)` from its right end, giving
    the source and the 0-based page; `None` for any other string.
   */
  function SplitPagedLabel(text: string): Option<(string, nat)>
  {
    if text == [] || text[|text| - 1] != ')' then None
    else
      var body := text[..|text| - 1];
      var k := TrailingDigits(body);
      var head, digits := body[..|body| - k], body[|body| - k..];
      if k == 0 || |head| < |PageOpen| || head[|head| - |PageOpen|..] != PageOpen then None
      else
        var n := DecimalValue(digits);
        if n == 0 then None else Some((head[..|head| - |PageOpen|], n - 1))
  }

  lemma {:induction false} TrailingDigitsOfSuffix(x: string, d: string)
    requires x != [] && !IsDigit(x[|x| - 1]) && AllDigits(d)
    ensures TrailingDigits(x + d) == |d|
  {
    if d != [] {
      var d' := d[..|d| - 1];
      assert (x + d)[..|x + d| - 1] == x + d';
      TrailingDigitsOfSuffix(x, d');
    } else {
      assert x + d == x;
    }
  }

  /** Reading back a rendered paged label recovers its source and 0-based page. */
  lemma SplitRenderedLabel(src: string, p: nat)
    ensures SplitPagedLabel(src + PageOpen + NatToDecimal(p + 1) + ")") == Some((src, p))
  {
    var digits := NatToDecimal(p + 1);
    var head := src + PageOpen;
    var body := head + digits;
    var text := body + ")";
    assert src + PageOpen + digits + ")" == text;
    assert text[..|text| - 1] == body;
    assert TrailingDigits(body) == |digits| by {
      assert head[|head| - 1] == ' ';
      TrailingDigitsOfSuffix(head, digits);
    }
    assert body[..|body| - |digits|] == head && body[|body| - |digits|..] == digits;
    assert head[|head| - |PageOpen|..] == PageOpen && head[..|head| - |PageOpen|] == src;
    assert DecimalValue(digits) == p + 1 by {
      DecimalRoundTrip(p + 1);
    }
  }

  /**
    A paged label gives back the source and the 0-based page it was made from:
    the page is printed 1-based and nothing is lost in the rendering.
   */
  lemma LabelRoundTrip(d: Doc)
    requires d.page.Some?
    ensures SplitPagedLabel(Label(d)) == Some((SourceOf(d), d.page.value))
  {
    SplitRenderedLabel(SourceOf(d), d.page.value);
  }

  /** Worked examples: page 2 of `doc.pdf` is cited as page 3, a text file by its path. */
  lemma LabelExamples()
    ensures Label(Doc("", Some("doc.pdf"), Some(2))) == "doc.pdf (page 3)"
    ensures Label(Doc("", Some("doc.pdf"), Some(0))) == "doc.pdf (page 1)"
    ensures Label(Doc("", Some("notes.txt"), None)) == "notes.txt"
    ensures Label(Doc("", None, None)) == "Unknown"
  {
  }

  /** The label of every document, in retrieval order. */
  function Labels(docs: seq<Doc>): seq<string>
  {
    seq(|docs|, i requires 0 <= i < |docs| => Label(docs[i]))
  }

  /** The source lines printed under the header: each label once, in order of first occurrence. */
  function SourceLabels(docs: seq<Doc>): seq<string>
  {
    FirstOccurrences(Labels(docs))
  }

  /**
    What the printed source list promises: no label twice, every document's label
    present and no other, at most one line per document, one line per distinct
    label, in order of first occurrence.
   */
  lemma SourceLabelsSpec(docs: seq<Doc>)
    ensures var shown := SourceLabels(docs);
      && NoDuplicates(shown)
      && (forall i :: 0 <= i < |docs| ==> Label(docs[i]) in shown)
      && (forall l :: l in shown ==> exists i :: 0 <= i < |docs| && Label(docs[i]) == l)
      && |shown| <= |docs|
      && |shown| == |set l | l in Labels(docs)|
      && OrderedByFirstOccurrence(Labels(docs), shown)
  {
    var ls := Labels(docs);
    FirstOccurrencesDistinct(ls);
    FirstOccurrencesOrdered(ls);
    FirstOccurrencesCount(ls);
    forall i | 0 <= i < |docs|
      ensures Label(docs[i]) in SourceLabels(docs)
    {
      assert ls[i] in ls;
    }
  }

  /**
    De-duplication is by the label string, not by the (source, page) pair: a
    document whose source happens to read like a paged label, or whose source
    is literally "Unknown", is merged with a different document.
   */
  lemma LabelCollision()
    ensures var a := Doc("x", Some("a.pdf (page 1)"), None);
            var b := Doc("y", Some("a.pdf"), Some(0));
      (a.source, a.page) != (b.source, b.page) && SourceLabels([a, b]) == ["a.pdf (page 1)"]
    ensures var a := Doc("x", None, None);
            var b := Doc("y", Some("Unknown"), None);
      a.source != b.source && SourceLabels([a, b]) == ["Unknown"]
  {
    var a := Doc("x", Some("a.pdf (page 1)"), None);
    var b := Doc("y", Some("a.pdf"), Some(0));
    assert Label(b) == "a.pdf (page 1)";
    assert Labels([a, b]) == ["a.pdf (page 1)", "a.pdf (page 1)"];
    assert Labels([a, b])[..1] == ["a.pdf (page 1)"];
    var c := Doc("x", None, None);
    var e := Doc("y", Some("Unknown"), None);
    assert Labels([c, e]) == ["Unknown", "Unknown"];
    assert Labels([c, e])[..1] == ["Unknown"];
  }

  /**
    The source printer of the loop: nothing at all for an empty retrieval,
    otherwise the header and then each label not yet in `seen`.
   */
  method PrintSources(docs: seq<Doc>) returns (header: bool, shown: seq<string>)
    ensures header <==> docs != []
    ensures shown == SourceLabels(docs)
  {
    header, shown := false, [];
    if docs != [] {
      header := true;
      var seen: set<string> := {};
      ghost var labels := Labels(docs);
      assert |labels| == |docs|;
      for i := 0 to |docs|
        invariant shown == FirstOccurrences(labels[..i])
        invariant seen == set l | l in shown
      {
        var citation := Label(docs[i]);
        assert labels[i] == citation;
        assert labels[..i + 1] == labels[..i] + [citation];
        assert (citation in seen) == (citation in labels[..i]);
        if citation !in seen {
          shown := shown + [citation];
          seen := seen + {citation};
        }
      }
      assert labels[..|docs|] == labels;
    }
  }

  // ---------------------------------------------------------------------------
  // Input classification and the loop

  /** The loop's reading of one input line: strip it, then test for an exit word, then for emptiness. */
  function Classify(line: string): Action
  {
    var query := Strip(line);
    if ToLower(query) in ExitWords then Exit
    else if query == "" then Skip
    else Ask(query)
  }

  /**
    A line ends the session exactly when, stripped of surrounding whitespace,
    it spells `exit` or `quit` in any mix of cases.
   */
  lemma ClassifyExitIff(line: string)
    ensures Classify(line) == Exit <==>
      CaseVariantOf(Strip(line), "exit") || CaseVariantOf(Strip(line), "quit")
  {
    LowerEqualsIff(Strip(line), "exit");
    LowerEqualsIff(Strip(line), "quit");
  }

  /** A line is skipped exactly when it is all whitespace. */
  lemma ClassifySkipIff(line: string)
    ensures Classify(line) == Skip <==> AllSpace(line)
  {
    StripEmptyIff(line);
    if AllSpace(line) {
      assert ToLower(Strip(line)) == "";
    }
  }

  /**
    Any other line is asked, as the line without its surrounding whitespace:
    the question is non-empty, does not start or end with whitespace, and
    surrounding it with more whitespace asks the same question.
   */
  lemma ClassifyAsk(line: string, p: string, q: string)
    requires Classify(line).Ask?
    requires AllSpace(p) && AllSpace(q)
    ensures var question := Classify(line).question;
      && question == Strip(line)
      && question != []
      && !IsSpace(question[0]) && !IsSpace(question[|question| - 1])
      && Classify(p + question + q) == Classify(line)
  {
    StripExact(p, Strip(line), q);
  }

  /** The turns a sequence of input lines produces: one per line that is asked, in order. */
  function Turns(lines: seq<string>, retrieve: string -> seq<Doc>): seq<Turn>
  {
    if lines == [] then []
    else Turns(lines[..|lines| - 1], retrieve) + TurnOf(lines[|lines| - 1], retrieve)
  }

  /** The turn one line produces: one for a question, none for a blank or exit line. */
  function TurnOf(line: string, retrieve: string -> seq<Doc>): seq<Turn>
  {
    match Classify(line)
    case Ask(q) => [Turn(q, retrieve(q) != [], SourceLabels(retrieve(q)))]
    case _ => []
  }

  /** Every turn asks a non-empty, stripped question and cites that question's retrieval. */
  lemma {:induction false} TurnsWellFormed(lines: seq<string>, retrieve: string -> seq<Doc>)
    ensures |Turns(lines, retrieve)| <= |lines|
    ensures forall t :: t in Turns(lines, retrieve) ==>
      && t.question != []
      && Strip(t.question) == t.question
      && t.sourcesHeader == (retrieve(t.question) != [])
      && t.sources == SourceLabels(retrieve(t.question))
  {
    if lines != [] {
      var init, line := lines[..|lines| - 1], lines[|lines| - 1];
      TurnsWellFormed(init, retrieve);
      var action := Classify(line);
      if action.Ask? {
        var q := action.question;
        assert q == Strip(line) && q != [];
        StripIdempotent(line);
        assert TurnOf(line, retrieve) == [Turn(q, retrieve(q) != [], SourceLabels(retrieve(q)))];
      } else {
        assert TurnOf(line, retrieve) == [];
      }
    }
  }

  /**
    The command-line loop over the lines the user types, with `retrieve` standing
    for the retriever. It reads lines until one classifies as `Exit` or the input
    runs out, skips blank lines and, for every question, records the sources it
    prints. `read` is how many lines were consumed.
   */
  method Repl(lines: seq<string>, retrieve: string -> seq<Doc>)
    returns (turns: seq<Turn>, read: nat, exited: bool)
    ensures read <= |lines|
    ensures exited ==> read > 0 && Classify(lines[read - 1]) == Exit
    ensures !exited ==> read == |lines|
    ensures forall i :: 0 <= i < read && !(exited && i == read - 1) ==> Classify(lines[i]) != Exit
    ensures turns == Turns(lines[..read], retrieve)
  {
    turns, read, exited := [], 0, false;
    while read < |lines|
      invariant read <= |lines|
      invariant forall i :: 0 <= i < read ==> Classify(lines[i]) != Exit
      invariant turns == Turns(lines[..read], retrieve)
    {
      var line := lines[read];
      var query := Strip(line);
      assert lines[..read + 1][..read] == lines[..read];
      assert Turns(lines[..read + 1], retrieve) == Turns(lines[..read], retrieve) + TurnOf(line, retrieve);
      read := read + 1;
      if ToLower(query) in ExitWords {
        exited := true;
        break;
      }
      assert Classify(line) != Exit;
      assert forall i :: 0 <= i < read ==> Classify(lines[i]) != Exit by {
        forall i | 0 <= i < read ensures Classify(lines[i]) != Exit {
          if i == read - 1 { assert lines[i] == line; }
        }
      }
      if query == "" {
        continue;
      }
      assert Classify(line) == Ask(query);
      var docs := retrieve(query);
      var header, shown := PrintSources(docs);
      turns := turns + [Turn(query, header, shown)];
    }
  }
}
