/**
  The line-by-line state machine both question loaders share: a header line
  opens a question, clue lines add to the open question, and opening the next
  question (or reaching the end of the file) closes the open one, keeping it
  when it has exactly four clues and recording an error otherwise (the
  `replace_question` closure, src/main.rs:297-317 and src/questions.rs:104-124).

  The loaders differ only in how they classify a line, so the machine here
  runs over already classified lines (`LineKind`); `C` is the loader's clue
  type. Errors are values naming what the program's message interpolates.
*/
module Loading {
  import opened Options

  datatype QuestionType = Sequence | Connection

  datatype Question<C> = Question(questionType: QuestionType, connection: string, clues: seq<C>)

  /** What went wrong, with the text the program's message quotes. */
  datatype LoadError =
    | NoLines
    | CannotOpen(path: string)
    | ReadFailure(message: string)
    | WrongClueCount(connection: string)
    | OrphanClue(clue: string)
    | NotQuestionOrClue(line: string)
    | ImageLoad(path: string)
    | UnknownCommand(line: string)

  /** An item of `BufReader::lines`: the line's text, or the I/O error met reading it. */
  datatype ReadLine = Read(text: string) | Failed(message: string)

  /** `Result<T, Vec<String>>`: the loaders report every error they met, in order. */
  datatype Result<T> = Ok(value: T) | Err(errors: seq<LoadError>)

  /**
    A classified line: a question header, a clue (with the text an orphan-clue
    error quotes), a line to ignore, or a line that is itself an error.
  */
  datatype LineKind<C> =
    | Header(questionType: QuestionType, connection: string)
    | Clue(clue: C, text: string)
    | Skip
    | Bad(error: LoadError)

  /** The open question (`current_question`). */
  datatype Pending<C> = Pending(questionType: QuestionType, connection: string, clues: seq<C>)

  datatype LoadState<C> = LoadState(questions: seq<Question<C>>, errors: seq<LoadError>, current: Option<Pending<C>>)

  function Start<C>(): LoadState<C> {
    LoadState([], [], None)
  }

  predicate AllFour<C>(qs: seq<Question<C>>) {
    forall i :: 0 <= i < |qs| ==> |qs[i].clues| == 4
  }

  function AsQuestion<C>(p: Pending<C>): Question<C> {
    Question(p.questionType, p.connection, p.clues)
  }

  /**
    `replace_question`: closes the open question, if any, and opens `next`.
    Only a question with exactly four clues is kept; nothing already loaded or
    reported is lost.
  */
  function Close<C>(st: LoadState<C>, next: Option<Pending<C>>): (r: LoadState<C>)
    ensures r.current == next
    ensures st.questions <= r.questions && st.errors <= r.errors
    ensures |r.questions| + |r.errors| == |st.questions| + |st.errors| + (if st.current.Some? then 1 else 0)
    ensures st.current.None? ==> r.questions == st.questions && r.errors == st.errors
    ensures st.current.Some? && |st.current.value.clues| == 4 ==>
      r.questions == st.questions + [AsQuestion(st.current.value)] && r.errors == st.errors
    ensures st.current.Some? && |st.current.value.clues| != 4 ==>
      r.questions == st.questions && r.errors == st.errors + [WrongClueCount(st.current.value.connection)]
  {
    match st.current
    case None => st.(current := next)
    case Some(p) =>
      if |p.clues| == 4 then st.(questions := st.questions + [AsQuestion(p)], current := next)
      else st.(errors := st.errors + [WrongClueCount(p.connection)], current := next)
  }

  /** One iteration of the `for line in ...` loop. */
  function Step<C>(st: LoadState<C>, k: LineKind<C>): (r: LoadState<C>)
    ensures st.questions <= r.questions && st.errors <= r.errors
    ensures k.Skip? ==> r == st
    ensures k.Header? ==> r.current == Some(Pending(k.questionType, k.connection, []))
    ensures k.Clue? && st.current.None? ==> r.errors == st.errors + [OrphanClue(k.text)] && r.current.None?
  {
    match k
    case Header(t, c) => Close(st, Some(Pending(t, c, [])))
    case Clue(clue, text) =>
      if st.current.Some? then st.(current := Some(st.current.value.(clues := st.current.value.clues + [clue])))
      else st.(errors := st.errors + [OrphanClue(text)])
    case Skip => st
    case Bad(e) => st.(errors := st.errors + [e])
  }

  /** The loop over all lines. Loaded questions and errors only ever grow. */
  function Run<C>(st: LoadState<C>, ks: seq<LineKind<C>>): (r: LoadState<C>)
    ensures st.questions <= r.questions && st.errors <= r.errors
    decreases |ks|
  {
    if ks == [] then st else Run(Step(st, ks[0]), ks[1..])
  }

  /** Closing the last question after the loop. */
  function Flush<C>(st: LoadState<C>): LoadState<C> {
    Close(st, None)
  }

  /** The loop, the final close, and the verdict: `Ok` only when no error was recorded. */
  function Finish<C>(ks: seq<LineKind<C>>): (r: Result<seq<Question<C>>>)
    ensures r.Err? ==> r.errors != []
  {
    var st := Flush(Run(Start(), ks));
    if st.errors == [] then Ok(st.questions) else Err(st.errors)
  }

  // ---------------------------------------------------------------------------
  // The grammar the machine accepts

  predicate NoSkip<C>(ks: seq<LineKind<C>>) {
    forall i :: 0 <= i < |ks| ==> !ks[i].Skip?
  }

  /** The lines that matter: `ks` without the ignored ones. */
  function Significant<C>(ks: seq<LineKind<C>>): (r: seq<LineKind<C>>)
    ensures NoSkip(r) && |r| <= |ks|
    ensures forall i :: 0 <= i < |r| ==> r[i] in ks
  {
    if ks == [] then []
    else if ks[0].Skip? then Significant(ks[1..])
    else [ks[0]] + Significant(ks[1..])
  }

  /** Five lines that spell question `q`: its header and then its four clues, in order. */
  predicate IsBlock<C(==)>(ks: seq<LineKind<C>>, q: Question<C>) {
    && |ks| == 5 && |q.clues| == 4
    && ks[0] == Header(q.questionType, q.connection)
    && forall i :: 1 <= i < 5 ==> ks[i].Clue? && ks[i].clue == q.clues[i - 1]
  }

  /** `ks` is the questions `qs`, one five-line block after another. */
  predicate IsBlocks<C(==)>(ks: seq<LineKind<C>>, qs: seq<Question<C>>)
    decreases |qs|
  {
    if qs == [] then ks == []
    else 5 <= |ks| && IsBlock(ks[..5], qs[0]) && IsBlocks(ks[5..], qs[1..])
  }

  // ---------------------------------------------------------------------------
  // Lemmas

  lemma {:induction false} RunAppend<C>(st: LoadState<C>, a: seq<LineKind<C>>, b: seq<LineKind<C>>)
    ensures Run(st, a + b) == Run(Run(st, a), b)
    decreases |a|
  {
    if a == [] {
      assert a + b == b;
    } else {
      assert (a + b)[0] == a[0] && (a + b)[1..] == a[1..] + b;
      RunAppend(Step(st, a[0]), a[1..], b);
    }
  }

  /** Ignored lines change nothing: only the significant lines decide the outcome. */
  lemma {:induction false} RunSkips<C>(st: LoadState<C>, ks: seq<LineKind<C>>)
    ensures Run(st, ks) == Run(st, Significant(ks))
    decreases |ks|
  {
    if ks != [] {
      RunSkips(Step(st, ks[0]), ks[1..]);
      if !ks[0].Skip? {
        assert ([ks[0]] + Significant(ks[1..]))[1..] == Significant(ks[1..]);
      }
    }
  }

  /** Without ignored lines, every line is significant. */
  lemma {:induction false} NoSkipIsSignificant<C>(ks: seq<LineKind<C>>)
    requires NoSkip(ks)
    ensures Significant(ks) == ks
  {
    if ks != [] {
      assert NoSkip(ks[1..]);
      NoSkipIsSignificant(ks[1..]);
      assert ks == [ks[0]] + ks[1..];
    }
  }

  /** Two inputs with the same significant lines load the same way. */
  lemma FinishIgnoresSkips<C>(ks: seq<LineKind<C>>, ks': seq<LineKind<C>>)
    requires Significant(ks) == Significant(ks')
    ensures Finish(ks) == Finish(ks')
  {
    RunSkips(Start(), ks);
    RunSkips(Start(), ks');
  }

  /** The clue values of a run of clue lines. */
  function ClueValues<C>(ks: seq<LineKind<C>>): (cs: seq<C>)
    requires forall i :: 0 <= i < |ks| ==> ks[i].Clue?
    ensures |cs| == |ks| && forall i :: 0 <= i < |ks| ==> cs[i] == ks[i].clue
  {
    seq(|ks|, i requires 0 <= i < |ks| => ks[i].clue)
  }

  /** The number of clue lines `ks` starts with. */
  function LeadingClues<C>(ks: seq<LineKind<C>>): (n: nat)
    ensures n <= |ks| && (n < |ks| ==> !ks[n].Clue?)
    ensures forall i :: 0 <= i < n ==> ks[i].Clue?
  {
    if ks == [] || !ks[0].Clue? then 0 else 1 + LeadingClues(ks[1..])
  }

  /** A run of clue lines, with a question open, appends its clues to that question and does nothing else. */
  lemma {:induction false} RunClues<C>(st: LoadState<C>, ks: seq<LineKind<C>>)
    requires st.current.Some? && forall i :: 0 <= i < |ks| ==> ks[i].Clue?
    ensures Run(st, ks) == st.(current := Some(st.current.value.(clues := st.current.value.clues + ClueValues(ks))))
    decreases |ks|
  {
    var p := st.current.value;
    if ks == [] {
      assert p.clues + ClueValues(ks) == p.clues;
    } else {
      RunClues(Step(st, ks[0]), ks[1..]);
      assert (p.clues + [ks[0].clue]) + ClueValues(ks[1..]) == p.clues + ClueValues(ks);
    }
  }

  /** No error so far, and the open question (if any) is complete. */
  predicate Ready<C>(st: LoadState<C>) {
    st.errors == [] && (st.current.None? || |st.current.value.clues| == 4)
  }

  /** In a ready state, closing keeps the open question, if any, and reports nothing. */
  lemma CloseReady<C>(st: LoadState<C>, next: Option<Pending<C>>)
    requires Ready(st)
    ensures Close(st, next) == LoadState(Flush(st).questions, [], next)
    ensures Flush(st).questions == st.questions + (if st.current.Some? then [AsQuestion(st.current.value)] else [])
  {
  }

  /** A question block read in a ready state leaves the state ready, with that question open. */
  lemma BlockStep<C>(st: LoadState<C>, ks: seq<LineKind<C>>, q: Question<C>)
    requires Ready(st) && IsBlock(ks, q)
    ensures Run(st, ks) == LoadState(Flush(st).questions, [], Some(Pending(q.questionType, q.connection, q.clues)))
  {
    var st1 := Step(st, ks[0]);
    CloseReady(st, Some(Pending(q.questionType, q.connection, [])));
    assert Run(st, ks) == Run(st1, ks[1..]);
    RunClues(st1, ks[1..]);
    assert [] + ClueValues(ks[1..]) == q.clues;
  }

  /** Completeness: well-formed blocks load, in order, with no error. */
  lemma {:induction false} RunBlocks<C>(st: LoadState<C>, ks: seq<LineKind<C>>, qs: seq<Question<C>>)
    requires Ready(st) && IsBlocks(ks, qs)
    ensures Flush(Run(st, ks)) == LoadState(Flush(st).questions + qs, [], None)
    decreases |qs|
  {
    if qs != [] {
      var q := qs[0];
      assert ks == ks[..5] + ks[5..];
      RunAppend(st, ks[..5], ks[5..]);
      BlockStep(st, ks[..5], q);
      var st1 := Run(st, ks[..5]);
      assert Flush(st1).questions == Flush(st).questions + [q];
      RunBlocks(st1, ks[5..], qs[1..]);
      assert Flush(st).questions + [q] + qs[1..] == Flush(st).questions + qs;
    }
  }

  /**
    An open question with the wrong number of clues leads to an error. When
    the next header or the end of the file closes it, that error is
    `WrongClueCount` naming its connection, and it stays reported.
  */
  lemma WrongCountFails<C>(st: LoadState<C>, ks: seq<LineKind<C>>)
    requires st.current.Some? && |st.current.value.clues| != 4
    requires ks == [] || !ks[0].Clue?
    requires NoSkip(ks)
    ensures Flush(Run(st, ks)).errors != []
    ensures ks == [] || ks[0].Header? ==>
      st.errors + [WrongClueCount(st.current.value.connection)] <= Flush(Run(st, ks)).errors
  {
    if ks != [] {
      var st1 := Step(st, ks[0]);
      assert st1.errors != [];
      assert Run(st, ks) == Run(st1, ks[1..]);
      ErrorsStay(st1, ks[1..]);
    }
  }

  /** Errors once recorded stay recorded, through the rest of the loop and the final close. */
  lemma ErrorsStay<C>(st: LoadState<C>, ks: seq<LineKind<C>>)
    ensures st.errors <= Flush(Run(st, ks)).errors
  {
    var r := Run(st, ks);
    assert st.errors <= r.errors && r.errors <= Flush(r).errors;
  }

  /** Without a header, the loop never opens a question. */
  lemma {:induction false} NoHeaderNoneOpen<C>(st: LoadState<C>, ks: seq<LineKind<C>>)
    requires st.current.None? && forall i :: 0 <= i < |ks| ==> !ks[i].Header?
    ensures Run(st, ks).current.None?
    decreases |ks|
  {
    if ks != [] {
      NoHeaderNoneOpen(Step(st, ks[0]), ks[1..]);
    }
  }

  /** The loop over `ks` reaches line `i` in the state left by the lines before it. */
  lemma RunAt<C>(st: LoadState<C>, ks: seq<LineKind<C>>, i: nat)
    requires i < |ks|
    ensures Run(st, ks) == Run(Step(Run(st, ks[..i]), ks[i]), ks[i + 1..])
  {
    assert ks == ks[..i] + ks[i..];
    RunAppend(st, ks[..i], ks[i..]);
    assert ks[i..][0] == ks[i] && ks[i..][1..] == ks[i + 1..];
  }

  /** A line that is itself an error (an unreadable line, an unloadable picture, ...) fails the load with that error. */
  lemma FinishReportsBad<C>(ks: seq<LineKind<C>>, i: nat)
    requires i < |ks| && ks[i].Bad?
    ensures Finish(ks).Err? && ks[i].error in Finish(ks).errors
  {
    RunAt(Start(), ks, i);
    var st1 := Step(Run(Start(), ks[..i]), ks[i]);
    ErrorsStay(st1, ks[i + 1..]);
    assert ks[i].error in st1.errors;
  }

  /** A clue before any header belongs to no question: the load fails, quoting the clue's text. */
  lemma FinishReportsOrphan<C>(ks: seq<LineKind<C>>, i: nat)
    requires i < |ks| && ks[i].Clue? && forall j :: 0 <= j < i ==> !ks[j].Header?
    ensures Finish(ks).Err? && OrphanClue(ks[i].text) in Finish(ks).errors
  {
    RunAt(Start(), ks, i);
    NoHeaderNoneOpen(Start(), ks[..i]);
    var st1 := Step(Run(Start(), ks[..i]), ks[i]);
    ErrorsStay(st1, ks[i + 1..]);
    assert OrphanClue(ks[i].text) in st1.errors;
  }

  /** In a ready state, a significant line that is not a header leads to an error. */
  lemma NotHeaderFails<C>(st: LoadState<C>, ks: seq<LineKind<C>>)
    requires Ready(st) && ks != [] && NoSkip(ks) && !ks[0].Header?
    ensures Flush(Run(st, ks)).errors != []
  {
    if ks[0].Clue? && st.current.Some? {
      var n := LeadingClues(ks);
      assert ks == ks[..n] + ks[n..];
      RunAppend(st, ks[..n], ks[n..]);
      RunClues(st, ks[..n]);
      WrongCountFails(Run(st, ks[..n]), ks[n..]);
    } else {
      var st1 := Step(st, ks[0]);
      assert st1.errors != [];
      assert Run(st, ks) == Run(st1, ks[1..]);
    }
  }

  /** In a ready state, an error-free load that starts with a header starts with a whole block. */
  lemma HeaderBlock<C>(st: LoadState<C>, ks: seq<LineKind<C>>) returns (q: Question<C>, st2: LoadState<C>)
    requires Ready(st) && NoSkip(ks) && ks != [] && ks[0].Header? && Flush(Run(st, ks)).errors == []
    ensures 5 <= |ks| && IsBlock(ks[..5], q)
    ensures Ready(st2) && Flush(st2).questions == Flush(st).questions + [q]
    ensures Run(st, ks) == Run(st2, ks[5..])
  {
    var st1 := Step(st, ks[0]);
    CloseReady(st, Some(Pending(ks[0].questionType, ks[0].connection, [])));
    var rest := ks[1..];
    var n := LeadingClues(rest);
    assert rest == rest[..n] + rest[n..];
    RunAppend(st1, rest[..n], rest[n..]);
    RunClues(st1, rest[..n]);
    st2 := Run(st1, rest[..n]);
    assert Run(st, ks) == Run(st2, rest[n..]);
    if n != 4 {
      WrongCountFails(st2, rest[n..]);
    } else {
      q := Question(ks[0].questionType, ks[0].connection, ClueValues(rest[..4]));
      assert ks[..5] == [ks[0]] + rest[..4];
      assert [] + ClueValues(rest[..4]) == q.clues;
      assert ks[5..] == rest[4..];
    }
  }

  lemma PrefixSlice<T>(all: seq<T>, done: seq<T>, q: T)
    requires done + [q] <= all
    ensures done <= all && all[|done|..][0] == q && all[|done|..][1..] == all[|done| + 1..]
  {
    assert all[|done|] == (done + [q])[|done|];
  }

  /** Soundness: an error-free load is a sequence of well-formed blocks. */
  lemma {:induction false} RunSound<C>(st: LoadState<C>, ks: seq<LineKind<C>>)
    requires Ready(st) && NoSkip(ks) && Flush(Run(st, ks)).errors == []
    ensures Flush(st).questions <= Flush(Run(st, ks)).questions
    ensures IsBlocks(ks, Flush(Run(st, ks)).questions[|Flush(st).questions|..])
    decreases |ks|
  {
    if ks == [] {
    } else if !ks[0].Header? {
      NotHeaderFails(st, ks);
    } else {
      var q, st2 := HeaderBlock(st, ks);
      var all := Flush(Run(st2, ks[5..])).questions;
      var done := Flush(st).questions;
      assert done + [q] <= all && IsBlocks(ks[5..], all[|done| + 1..]) by {
        assert NoSkip(ks[5..]);
        RunSound(st2, ks[5..]);
      }
      PrefixSlice(all, done, q);
      assert Flush(Run(st, ks)).questions == all;
      var tail := all[|done|..];
      assert 5 <= |ks| && IsBlock(ks[..5], tail[0]) && IsBlocks(ks[5..], tail[1..]);
      assert IsBlocks(ks, tail);
    }
  }

  /**
    The loaders' contract: loading succeeds with `qs` exactly when the
    significant lines are the blocks of `qs` — a header and four clues each,
    nothing else, no line out of place.
  */
  lemma FinishOkIff<C>(ks: seq<LineKind<C>>, qs: seq<Question<C>>)
    ensures Finish(ks) == Ok(qs) <==> IsBlocks(Significant(ks), qs)
  {
    var sig := Significant(ks);
    RunSkips(Start(), ks);
    if Finish(ks) == Ok(qs) {
      RunSound(Start(), sig);
    }
    if IsBlocks(sig, qs) {
      RunBlocks(Start(), sig, qs);
      assert [] + qs == qs;
    }
  }

  /** Blocks hold only headers and clues, so nothing in them is ignored. */
  lemma {:induction false} BlocksHaveNoSkip<C>(ks: seq<LineKind<C>>, qs: seq<Question<C>>)
    requires IsBlocks(ks, qs)
    ensures NoSkip(ks)
    decreases |qs|
  {
    if qs != [] {
      BlocksHaveNoSkip(ks[5..], qs[1..]);
      assert forall i :: 5 <= i < |ks| ==> ks[i] == ks[5..][i - 5];
      assert forall i :: 0 <= i < 5 ==> ks[i] == ks[..5][i];
    }
  }

  lemma {:induction false} BlocksHaveFourClues<C>(ks: seq<LineKind<C>>, qs: seq<Question<C>>)
    requires IsBlocks(ks, qs)
    ensures AllFour(qs)
    decreases |qs|
  {
    if qs != [] {
      BlocksHaveFourClues(ks[5..], qs[1..]);
      assert forall i :: 1 <= i < |qs| ==> qs[i] == qs[1..][i - 1];
    }
  }

  /** Every question a load returns has exactly four clues. */
  lemma LoadedQuestionsHaveFourClues<C>(ks: seq<LineKind<C>>)
    requires Finish(ks).Ok?
    ensures AllFour(Finish(ks).value)
  {
    FinishOkIff(ks, Finish(ks).value);
    BlocksHaveFourClues(Significant(ks), Finish(ks).value);
  }
}
