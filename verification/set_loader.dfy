/**
  The question-set files the quiz reads (src/questions.rs). A set file starts
  with a title line; after it, lines whose first non-blank character is `#`
  are comments, `    sequence: ` and `    connection: ` open a question, and a
  line indented by eight spaces is a clue: a picture clue when it matches
  `^        picture: (\S+) (\S.+)$`, a text clue otherwise. An index file
  lists the set files to load (see `SetIndex`).

  Loading a picture is a lookup in `images`, the set of paths whose image
  loads.
*/
module SetLoader {
  import opened Strings
  import opened Options
  import opened Loading
  import opened Formats

  /** A clue; a picture clue keeps the path of its image in place of the loaded surface. */
  datatype Clue = TextClue(text: string) | PictureClue(path: string, text: string)

  datatype QuestionSet = QuestionSet(title: string, questions: seq<Question<Clue>>)

  const SequencePrefix := "    sequence: "
  const ConnectionPrefix := "    connection: "
  const CluePrefix := "        "
  const PicturePrefix := "        picture: "

  // ---------------------------------------------------------------------------
  // The picture-clue pattern

  /** The length of the run of non-whitespace characters `s` starts with. */
  function WordLength(s: string): (n: nat)
    ensures n <= |s|
  {
    if s == [] || IsWhitespace(s[0]) then 0 else 1 + WordLength(s[1..])
  }

  /** `WordLength` stops at the first whitespace character, or at the end. */
  lemma {:induction false} WordLengthStops(s: string)
    ensures var n := WordLength(s);
      && (n < |s| ==> IsWhitespace(s[n]))
      && forall k :: 0 <= k < n ==> !IsWhitespace(s[k])
  {
    if s != [] && !IsWhitespace(s[0]) {
      WordLengthStops(s[1..]);
      assert forall k :: 1 <= k < |s| ==> s[k] == s[1..][k - 1];
    }
  }

  /** What `(\S+)` accepts: a non-empty path without whitespace. */
  predicate IsPicturePath(p: string) {
    |p| > 0 && forall k :: 0 <= k < |p| ==> !IsWhitespace(p[k])
  }

  /** What `(\S.+)$` accepts: a non-blank character, then at least one more, and no line feed. */
  predicate IsPictureText(t: string) {
    |t| >= 2 && !IsWhitespace(t[0]) && '\n' !in t
  }

  /** `PICTURE_CLUE_REGEX.captures(l)`: the path and the text of a picture-clue line. */
  function MatchPicture(l: string): (m: Option<(string, string)>)
    ensures m.Some? ==> l == PicturePrefix + m.value.0 + " " + m.value.1 && IsPictureText(m.value.1)
  {
    if !HasPrefix(l, PicturePrefix) then None
    else
      var rest := l[|PicturePrefix|..];
      var n := WordLength(rest);
      if n == 0 || n == |rest| || rest[n] != ' ' then None
      else if IsPictureText(rest[n + 1..]) then Some((rest[..n], rest[n + 1..]))
      else None
  }

  // ---------------------------------------------------------------------------
  // One set file

  /** How the loop body at src/questions.rs:135-183 treats one line after the title. */
  function Classify(line: ReadLine, images: set<string>): (k: LineKind<Clue>)
    ensures k.Skip? <==> line.Read? && IsComment(line.text)
    ensures k.Header? || k.Clue? ==> line.Read? && !IsComment(line.text)
  {
    match line
    case Failed(m) => Bad(ReadFailure(m))
    case Read(l) =>
      if IsComment(l) then Skip
      else if HasPrefix(l, SequencePrefix) then Header(Sequence, l[|SequencePrefix|..])
      else if HasPrefix(l, ConnectionPrefix) then Header(Connection, l[|ConnectionPrefix|..])
      else if MatchPicture(l).Some? then
        var (path, text) := MatchPicture(l).value;
        if path in images then Clue(PictureClue(path, text), text) else Bad(ImageLoad(path))
      else if HasPrefix(l, CluePrefix) then Clue(TextClue(l[|CluePrefix|..]), l[|CluePrefix|..])
      else Bad(NotQuestionOrClue(l))
  }

  function HeaderPrefix(t: QuestionType): string {
    if t == Sequence then SequencePrefix else ConnectionPrefix
  }

  function ClueLine(c: Clue): string {
    match c
    case TextClue(t) => CluePrefix + t
    case PictureClue(p, t) => PicturePrefix + p + " " + t
  }

  /**
    A clue the format can carry: a text clue that does not read as a comment or
    a picture clue, or a picture clue whose path and text the pattern splits
    back apart and whose image loads.
  */
  predicate Writable(c: Clue, images: set<string>) {
    match c
    case TextClue(t) => !IsComment(t) && MatchPicture(CluePrefix + t).None?
    case PictureClue(p, t) => IsPicturePath(p) && IsPictureText(t) && p in images
  }

  /** The format of the lines after the title. */
  function SetFormat(images: set<string>): Format<Clue> {
    Format(line => Classify(line, images), (t, c) => HeaderPrefix(t) + c, ClueLine, c => Writable(c, images))
  }

  /**
    The set in the lines of an opened file: the first line is the title, and
    a file without a readable first line reports only that it has no lines.
  */
  function LoadLines(lines: seq<ReadLine>, images: set<string>): (r: Result<QuestionSet>)
    ensures lines == [] || lines[0].Failed? ==> r == Err([NoLines])
    ensures r.Ok? ==> r.value.title == lines[0].text
    ensures r.Err? ==> r.errors != []
  {
    if lines == [] || lines[0].Failed? then Err([NoLines])
    else
      match Load(SetFormat(images), lines[1..])
      case Ok(qs) => Ok(QuestionSet(lines[0].text, qs))
      case Err(es) => Err(es)
  }

  /** `load_questions(path)`. */
  function LoadQuestions(files: map<string, seq<ReadLine>>, images: set<string>, path: string): (r: Result<QuestionSet>)
    ensures path !in files ==> r == Err([CannotOpen(path)])
    ensures path in files ==> r == LoadLines(files[path], images)
    ensures r.Err? ==> r.errors != []
  {
    if path in files then LoadLines(files[path], images) else Err([CannotOpen(path)])
  }

  /** The lines without the comments. */
  function NonComments(lines: seq<ReadLine>): (r: seq<ReadLine>)
    ensures |r| <= |lines|
    ensures forall i :: 0 <= i < |r| ==> r[i] in lines && !(r[i].Read? && IsComment(r[i].text))
  {
    if lines == [] then []
    else if lines[0].Read? && IsComment(lines[0].text) then NonComments(lines[1..])
    else [lines[0]] + NonComments(lines[1..])
  }

  /** A whole set file: its title line, then its questions written out. */
  function RenderSet(s: QuestionSet, images: set<string>): seq<ReadLine> {
    [Read(s.title)] + Render(SetFormat(images), s.questions)
  }

  // ---------------------------------------------------------------------------
  // Lemmas: the picture pattern and single lines

  lemma WordLengthOf(p: string, s: string)
    requires IsPicturePath(p) && s != [] && IsWhitespace(s[0])
    ensures WordLength(p + s) == |p|
  {
    WordLengthStops(p + s);
    assert (p + s)[|p|] == s[0];
    assert forall k :: 0 <= k < |p| ==> (p + s)[k] == p[k];
  }

  /** A picture-clue line with a path and a text of the accepted shapes matches, capturing those two. */
  lemma PictureLineMatches(p: string, t: string)
    requires IsPicturePath(p) && IsPictureText(t)
    ensures MatchPicture(PicturePrefix + p + " " + t) == Some((p, t))
  {
    var pre, l := PicturePrefix, PicturePrefix + p + " " + t;
    assert l[..|pre|] == pre;
    var rest := l[|pre|..];
    assert rest == p + (" " + t);
    WordLengthOf(p, " " + t);
    assert rest[..|p|] == p && rest[|p|] == ' ' && rest[|p| + 1..] == t;
  }

  /**
    The pattern matches exactly the lines `        picture: <path> <text>` with
    a path and a text of the shapes it accepts, and then captures those two.
  */
  lemma MatchPictureIff(l: string, p: string, t: string)
    ensures MatchPicture(l) == Some((p, t)) <==> l == PicturePrefix + p + " " + t && IsPicturePath(p) && IsPictureText(t)
  {
    if l == PicturePrefix + p + " " + t && IsPicturePath(p) && IsPictureText(t) {
      PictureLineMatches(p, t);
    }
    if MatchPicture(l) == Some((p, t)) {
      var rest := l[|PicturePrefix|..];
      var n := WordLength(rest);
      WordLengthStops(rest);
      assert rest == rest[..n] + " " + rest[n + 1..];
      assert l == l[..|PicturePrefix|] + rest;
    }
  }

  /** Indentation by spaces followed by a character other than whitespace or `#` is not a comment. */
  lemma IndentedNotComment(w: string, t: string)
    requires forall k :: 0 <= k < |w| ==> w[k] == ' '
    requires t != [] && !IsWhitespace(t[0]) && t[0] != '#'
    ensures !IsComment(w + t)
  {
    TrimStartSkips(w, t);
  }

  /** Only the two header prefixes make a header, and the connection is the rest of the line. */
  lemma ClassifiedHeader(l: string, images: set<string>)
    requires Classify(Read(l), images).Header?
    ensures var k := Classify(Read(l), images);
      HasPrefix(l, HeaderPrefix(k.questionType)) && k.connection == l[|HeaderPrefix(k.questionType)|..]
  {
    if IsComment(l) {
    } else if HasPrefix(l, SequencePrefix) {
    } else if HasPrefix(l, ConnectionPrefix) {
    } else if MatchPicture(l).Some? {
    } else {
    }
  }

  /** A header line is not a comment. */
  lemma HeaderNotComment(t: QuestionType, c: string)
    ensures !IsComment(HeaderPrefix(t) + c)
  {
    var p := HeaderPrefix(t);
    assert p + c == "    " + (p[4..] + c);
    IndentedNotComment("    ", p[4..] + c);
  }

  lemma HeaderLineClassified(t: QuestionType, c: string, images: set<string>)
    ensures Classify(Read(HeaderPrefix(t) + c), images) == Header(t, c)
  {
    var p, l := HeaderPrefix(t), HeaderPrefix(t) + c;
    HeaderNotComment(t, c);
    assert l[..|p|] == p && l[|p|..] == c;
    if t == Connection {
      assert l[4] == 'c';
    }
  }

  /** A line is read as a header exactly when it is that header's prefix followed by the connection. */
  lemma ClassifyHeaderIff(l: string, t: QuestionType, c: string, images: set<string>)
    ensures Classify(Read(l), images) == Header(t, c) <==> l == HeaderPrefix(t) + c
  {
    var p := HeaderPrefix(t);
    if l == p + c {
      HeaderLineClassified(t, c, images);
    }
    if Classify(Read(l), images) == Header(t, c) {
      ClassifiedHeader(l, images);
      assert l == l[..|p|] + l[|p|..];
    }
  }

  /** A line indented past four spaces starts with neither header prefix. */
  lemma IndentedNotHeader(l: string)
    requires 5 <= |l| && l[4] == ' '
    ensures !HasPrefix(l, SequencePrefix) && !HasPrefix(l, ConnectionPrefix)
  {
    if |SequencePrefix| <= |l| {
      assert l[..|SequencePrefix|][4] == ' ';
    }
    if |ConnectionPrefix| <= |l| {
      assert l[..|ConnectionPrefix|][4] == ' ';
    }
  }

  /** A clue comes either from a picture line whose image loads, or from an eight-space line the pattern rejects. */
  lemma ClassifiedClue(l: string, images: set<string>)
    requires Classify(Read(l), images).Clue?
    ensures !IsComment(l)
    ensures var k := Classify(Read(l), images);
      || (MatchPicture(l).Some? && MatchPicture(l).value.0 in images
          && k.clue == PictureClue(MatchPicture(l).value.0, MatchPicture(l).value.1))
      || (MatchPicture(l).None? && HasPrefix(l, CluePrefix) && k.clue == TextClue(l[|CluePrefix|..]))
  {
    if IsComment(l) {
    } else if HasPrefix(l, SequencePrefix) {
    } else if HasPrefix(l, ConnectionPrefix) {
    } else if MatchPicture(l).Some? {
    } else {
    }
  }

  /** The eight-space indentation of a clue line hides neither a comment nor the clue. */
  lemma ClueIndent(t: string)
    ensures IsComment(CluePrefix + t) <==> IsComment(t)
    ensures HasPrefix(CluePrefix + t, CluePrefix) && (CluePrefix + t)[|CluePrefix|..] == t
    ensures !HasPrefix(CluePrefix + t, SequencePrefix) && !HasPrefix(CluePrefix + t, ConnectionPrefix)
  {
    var l := CluePrefix + t;
    assert IsComment(l) <==> IsComment(t) by {
      TrimStartSkips(CluePrefix, t);
    }
    assert HasPrefix(l, CluePrefix) && l[|CluePrefix|..] == t by {
      assert l[..|CluePrefix|] == CluePrefix;
    }
    assert !HasPrefix(l, SequencePrefix) && !HasPrefix(l, ConnectionPrefix) by {
      assert l[4] == ' ';
      IndentedNotHeader(l);
    }
  }

  /** A text-clue line is neither a comment nor a header, nor a picture line. */
  lemma TextClueLine(t: string, images: set<string>)
    requires Writable(TextClue(t), images)
    ensures Classify(Read(CluePrefix + t), images) == Clue(TextClue(t), t)
  {
    ClueIndent(t);
  }

  /** A picture-clue line is neither a comment nor a header, and the pattern gives its parts back. */
  lemma PictureClueLine(p: string, t: string, images: set<string>)
    requires Writable(PictureClue(p, t), images)
    ensures Classify(Read(PicturePrefix + p + " " + t), images) == Clue(PictureClue(p, t), t)
  {
    var l := PicturePrefix + p + " " + t;
    assert l == CluePrefix + ("picture: " + p + " " + t);
    IndentedNotComment(CluePrefix, "picture: " + p + " " + t);
    assert l[4] == ' ';
    IndentedNotHeader(l);
    MatchPictureIff(l, p, t);
  }

  /** A line is read as clue `c` exactly when it is `c` written out and `c` is a clue the format can carry. */
  lemma ClassifyClueIff(l: string, c: Clue, images: set<string>)
    ensures Classify(Read(l), images).Clue? && Classify(Read(l), images).clue == c <==> l == ClueLine(c) && Writable(c, images)
  {
    var k := Classify(Read(l), images);
    if k.Clue? && k.clue == c {
      ClassifiedClue(l, images);
      if MatchPicture(l).Some? {
        var (p, t) := MatchPicture(l).value;
        MatchPictureIff(l, p, t);
      } else {
        var t := l[|CluePrefix|..];
        assert l == CluePrefix + t;
        TrimStartSkips(CluePrefix, t);
      }
    }
    if l == ClueLine(c) && Writable(c, images) {
      match c
      case TextClue(t) => TextClueLine(t, images);
      case PictureClue(p, t) => PictureClueLine(p, t, images);
    }
  }

  // ---------------------------------------------------------------------------
  // Lemmas: one set file

  /** The format reads back exactly what it writes. */
  lemma SetFormatFaithful(images: set<string>)
    ensures Faithful(SetFormat(images))
  {
    var f := SetFormat(images);
    forall line | f.classify(line).Header?
      ensures line == Read(f.headerLine(f.classify(line).questionType, f.classify(line).connection))
    {
      ClassifiedHeader(line.text, images);
      var p := HeaderPrefix(f.classify(line).questionType);
      assert line.text == line.text[..|p|] + line.text[|p|..];
    }
    forall t, c
      ensures f.classify(Read(f.headerLine(t, c))) == Header(t, c)
    {
      ClassifyHeaderIff(HeaderPrefix(t) + c, t, c, images);
    }
    forall line | f.classify(line).Clue?
      ensures line == Read(f.clueLine(f.classify(line).clue)) && f.writable(f.classify(line).clue)
    {
      ClassifyClueIff(line.text, f.classify(line).clue, images);
    }
    forall c | f.writable(c)
      ensures f.classify(Read(f.clueLine(c))).Clue? && f.classify(Read(f.clueLine(c))).clue == c
    {
      ClassifyClueIff(ClueLine(c), c, images);
    }
  }

  /** Exactly the comment lines are ignored. */
  lemma {:induction false} KeptNonComments(lines: seq<ReadLine>, images: set<string>)
    ensures Kept(lines, SetFormat(images).classify) == NonComments(lines)
  {
    if lines != [] {
      SkipIffComment(lines[0], images);
      KeptNonComments(lines[1..], images);
    }
  }

  /** The only lines the set format ignores are comments. */
  lemma SkipIffComment(line: ReadLine, images: set<string>)
    ensures SetFormat(images).classify(line).Skip? <==> line.Read? && IsComment(line.text)
  {
    if line.Read? && !IsComment(line.text) {
      ClassifiedNotSkip(line.text, images);
    }
  }

  lemma ClassifiedNotSkip(l: string, images: set<string>)
    requires !IsComment(l)
    ensures !Classify(Read(l), images).Skip?
  {
    if HasPrefix(l, SequencePrefix) {
    } else if HasPrefix(l, ConnectionPrefix) {
    } else if MatchPicture(l).Some? {
    } else {
    }
  }

  /** Comments after the title change nothing: two files with the same title and the same other lines load alike. */
  lemma CommentsIgnored(lines: seq<ReadLine>, lines': seq<ReadLine>, images: set<string>)
    requires lines != [] && lines' != [] && lines[0] == lines'[0]
    requires NonComments(lines[1..]) == NonComments(lines'[1..])
    ensures LoadLines(lines, images) == LoadLines(lines', images)
  {
    var classify := SetFormat(images).classify;
    KeptNonComments(lines[1..], images);
    KeptNonComments(lines'[1..], images);
    SignificantClassified(lines[1..], classify);
    SignificantClassified(lines'[1..], classify);
    FinishIgnoresSkips(Classified(lines[1..], classify), Classified(lines'[1..], classify));
  }

  /**
    A set file loads as `s` exactly when its first line is the title and its
    other lines, comments aside, are the questions written out, every question
    with four clues the format can carry.
  */
  lemma LoadLinesOkIff(lines: seq<ReadLine>, images: set<string>, s: QuestionSet)
    ensures LoadLines(lines, images) == Ok(s) <==>
      && lines != [] && lines[0] == Read(s.title)
      && AllLoadable(SetFormat(images), s.questions)
      && NonComments(lines[1..]) == Render(SetFormat(images), s.questions)
  {
    if lines != [] && lines[0].Read? {
      SetFormatFaithful(images);
      KeptNonComments(lines[1..], images);
      LoadOkIff(SetFormat(images), lines[1..], s.questions);
    }
  }

  /** Every question of a loaded set has four clues, each one the format can carry: every picture's image loaded. */
  lemma LoadedSetIsLoadable(lines: seq<ReadLine>, images: set<string>)
    requires LoadLines(lines, images).Ok?
    ensures AllLoadable(SetFormat(images), LoadLines(lines, images).value.questions)
    ensures AllFour(LoadLines(lines, images).value.questions)
  {
    LoadLinesOkIff(lines, images, LoadLines(lines, images).value);
    LoadableHasFour(SetFormat(images), LoadLines(lines, images).value.questions);
  }

  /** Writing a set of loadable questions under a title and loading it back gives the same set. */
  lemma RoundTrip(s: QuestionSet, images: set<string>)
    requires AllLoadable(SetFormat(images), s.questions)
    ensures LoadLines(RenderSet(s, images), images) == Ok(s)
  {
    var lines := RenderSet(s, images);
    assert lines[1..] == Render(SetFormat(images), s.questions);
    SetFormatFaithful(images);
    Formats.RoundTrip(SetFormat(images), s.questions);
  }

  // ---------------------------------------------------------------------------
  // Lemmas: the errors a set file reports

  /** A picture line whose image does not load is read as the error naming its path. */
  lemma UnloadablePictureLine(l: string, images: set<string>)
    requires MatchPicture(l).Some? && MatchPicture(l).value.0 !in images
    ensures Classify(Read(l), images) == Bad(ImageLoad(MatchPicture(l).value.0))
  {
    var t := l[|CluePrefix|..];
    assert l == CluePrefix + t && t[0] == 'p' by {
      assert l[..|PicturePrefix|] == PicturePrefix;
      assert l[..|CluePrefix|] == CluePrefix;
    }
    ClueIndent(t);
    IndentedNotComment(CluePrefix, t);
  }

  /** A picture whose image does not load fails the load, naming its path, wherever it stands after the title. */
  lemma UnloadablePictureReported(lines: seq<ReadLine>, i: nat, images: set<string>)
    requires 1 <= i < |lines| && lines[0].Read? && lines[i].Read?
    requires MatchPicture(lines[i].text).Some? && MatchPicture(lines[i].text).value.0 !in images
    ensures LoadLines(lines, images).Err?
    ensures ImageLoad(MatchPicture(lines[i].text).value.0) in LoadLines(lines, images).errors
  {
    UnloadablePictureLine(lines[i].text, images);
    var ks := Classified(lines[1..], SetFormat(images).classify);
    assert ks[i - 1] == Classify(lines[i], images);
    FinishReportsBad(ks, i - 1);
  }

  /**
    A clue line before the first question header belongs to no question: the
    load fails, quoting the clue's text.
  */
  lemma OrphanClueReported(lines: seq<ReadLine>, i: nat, c: Clue, images: set<string>)
    requires 1 <= i < |lines| && lines[0].Read? && lines[i] == Read(ClueLine(c)) && Writable(c, images)
    requires forall j :: 1 <= j < i ==>
      !(lines[j].Read? && (HasPrefix(lines[j].text, SequencePrefix) || HasPrefix(lines[j].text, ConnectionPrefix)))
    ensures LoadLines(lines, images).Err? && OrphanClue(c.text) in LoadLines(lines, images).errors
  {
    var ks := Classified(lines[1..], SetFormat(images).classify);
    match c {
      case TextClue(t) => TextClueLine(t, images);
      case PictureClue(p, t) => PictureClueLine(p, t, images);
    }
    assert ks[i - 1] == Clue(c, c.text);
    forall j | 0 <= j < i - 1
      ensures !ks[j].Header?
    {
      assert ks[j] == Classify(lines[j + 1], images);
      if ks[j].Header? {
        ClassifiedHeader(lines[j + 1].text, images);
      }
    }
    FinishReportsOrphan(ks, i - 1);
  }
}
