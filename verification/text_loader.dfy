/**
  The plain question file the game binary reads (`load_questions`,
  src/main.rs:281-360): a `sequence: ` or `connection: ` line opens a question,
  a line indented by four spaces is one of its text clues, and anything else is
  an error. There is no title and no comment syntax.
*/
module TextLoader {
  import opened Strings
  import opened Options
  import opened Loading
  import opened Formats

  const SequencePrefix := "sequence: "
  const ConnectionPrefix := "connection: "
  const CluePrefix := "    "

  /** How the loop body at src/main.rs:322-351 treats one line. */
  function Classify(line: ReadLine): (k: LineKind<string>)
    ensures !k.Skip?
    ensures k.Clue? ==> k.text == k.clue
  {
    match line
    case Failed(m) => Bad(ReadFailure(m))
    case Read(l) =>
      if HasPrefix(l, SequencePrefix) then Header(Sequence, l[|SequencePrefix|..])
      else if HasPrefix(l, ConnectionPrefix) then Header(Connection, l[|ConnectionPrefix|..])
      else if HasPrefix(l, CluePrefix) then Clue(l[|CluePrefix|..], l[|CluePrefix|..])
      else Bad(NotQuestionOrClue(l))
  }

  function HeaderPrefix(t: QuestionType): string {
    if t == Sequence then SequencePrefix else ConnectionPrefix
  }

  /** The format: headers and clues are written as the loader reads them, and every clue can be written. */
  const TextFormat: Format<string> :=
    Format(Classify, (t, c) => HeaderPrefix(t) + c, c => CluePrefix + c, c => true)

  /** The questions in the lines of an opened file. */
  function LoadLines(lines: seq<ReadLine>): (r: Result<seq<Question<string>>>)
    ensures r.Err? ==> r.errors != []
    ensures r.Ok? ==> AllFour(r.value)
  {
    if Load(TextFormat, lines).Ok? then
      LoadedQuestionsHaveFourClues(Classified(lines, TextFormat.classify));
      Load(TextFormat, lines)
    else Load(TextFormat, lines)
  }

  /** `load_questions(path)`: a file that cannot be opened is reported as such and nothing else. */
  function LoadQuestions(files: map<string, seq<ReadLine>>, path: string): (r: Result<seq<Question<string>>>)
    ensures path !in files ==> r == Err([CannotOpen(path)])
    ensures path in files ==> r == LoadLines(files[path])
  {
    if path in files then LoadLines(files[path]) else Err([CannotOpen(path)])
  }

  // ---------------------------------------------------------------------------
  // Lemmas

  /** A line is read as a header exactly when it is that header's prefix followed by the connection. */
  lemma ClassifyHeaderIff(l: string, t: QuestionType, c: string)
    ensures Classify(Read(l)) == Header(t, c) <==> l == HeaderPrefix(t) + c
  {
    var p := HeaderPrefix(t);
    if l == p + c {
      assert l[..|p|] == p && l[|p|..] == c;
      if t == Connection {
        assert l[0] == 'c';
      }
    }
    if Classify(Read(l)) == Header(t, c) {
      assert l == l[..|p|] + l[|p|..];
    }
  }

  /** A line is read as a clue exactly when it is four spaces followed by the clue. */
  lemma ClassifyClueIff(l: string, c: string)
    ensures Classify(Read(l)).Clue? && Classify(Read(l)).clue == c <==> l == CluePrefix + c
  {
    if l == CluePrefix + c {
      assert l[..4] == CluePrefix && l[4..] == c;
      assert l[0] == ' ';
    }
    if Classify(Read(l)).Clue? {
      assert l == l[..4] + l[4..];
    }
  }

  /** The format reads back exactly what it writes. */
  lemma TextFormatFaithful()
    ensures Faithful(TextFormat)
  {
    var f := TextFormat;
    forall line | f.classify(line).Header?
      ensures line == Read(f.headerLine(f.classify(line).questionType, f.classify(line).connection))
    {
      ClassifyHeaderIff(line.text, f.classify(line).questionType, f.classify(line).connection);
    }
    forall t, c
      ensures f.classify(Read(f.headerLine(t, c))) == Header(t, c)
    {
      ClassifyHeaderIff(HeaderPrefix(t) + c, t, c);
    }
    forall line | f.classify(line).Clue?
      ensures line == Read(f.clueLine(f.classify(line).clue)) && f.writable(f.classify(line).clue)
    {
      ClassifyClueIff(line.text, f.classify(line).clue);
    }
    forall c
      ensures f.classify(Read(f.clueLine(c))).Clue? && f.classify(Read(f.clueLine(c))).clue == c
    {
      ClassifyClueIff(CluePrefix + c, c);
    }
  }

  /**
    A file loads as `qs` exactly when it is `qs` written out, each question
    with four clues: the format has one spelling per question list.
  */
  lemma LoadLinesOkIff(lines: seq<ReadLine>, qs: seq<Question<string>>)
    ensures LoadLines(lines) == Ok(qs) <==> AllFour(qs) && lines == Render(TextFormat, qs)
  {
    TextFormatFaithful();
    KeptAll(lines, Classify);
    LoadOkIff(TextFormat, lines, qs);
  }

  /** Writing questions with four clues each and loading them back gives the same questions. */
  lemma RoundTrip(qs: seq<Question<string>>)
    requires AllFour(qs)
    ensures LoadLines(Render(TextFormat, qs)) == Ok(qs)
  {
    LoadLinesOkIff(Render(TextFormat, qs), qs);
  }
}
