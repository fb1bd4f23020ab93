/**
  A question-file format, seen from both sides: how a reader classifies a
  line, and how a question is written out as a header line followed by one
  line per clue. When a format reads back exactly what it writes
  (`Faithful`), the shared loading machine accepts a file exactly when it is a
  list of questions written out, with ignored lines anywhere.
*/
module Formats {
  import opened Loading

  /**
    `classify` reads a line; `headerLine` and `clueLine` write one; `writable`
    says which clues the format can carry.
  */
  datatype Format<!C> = Format(
    classify: ReadLine -> LineKind<C>,
    headerLine: (QuestionType, string) -> string,
    clueLine: C -> string,
    writable: C -> bool)

  /**
    The format reads its own header and clue lines back as what was written,
    and reads nothing else as a header or a clue.
  */
  ghost predicate Faithful<C(!new)>(f: Format<C>) {
    && (forall line :: f.classify(line).Header? ==>
          line == Read(f.headerLine(f.classify(line).questionType, f.classify(line).connection)))
    && (forall t, c :: f.classify(Read(f.headerLine(t, c))) == Header(t, c))
    && (forall line :: f.classify(line).Clue? ==>
          line == Read(f.clueLine(f.classify(line).clue)) && f.writable(f.classify(line).clue))
    && (forall c :: f.writable(c) ==> f.classify(Read(f.clueLine(c))).Clue? && f.classify(Read(f.clueLine(c))).clue == c)
  }

  /** Every line, classified. */
  function Classified<C>(lines: seq<ReadLine>, classify: ReadLine -> LineKind<C>): (ks: seq<LineKind<C>>)
    ensures |ks| == |lines| && forall i :: 0 <= i < |lines| ==> ks[i] == classify(lines[i])
  {
    seq(|lines|, i requires 0 <= i < |lines| => classify(lines[i]))
  }

  /** The lines `classify` does not skip, in order. */
  function Kept<C>(lines: seq<ReadLine>, classify: ReadLine -> LineKind<C>): (r: seq<ReadLine>)
    ensures |r| <= |lines|
    ensures forall i :: 0 <= i < |r| ==> r[i] in lines && !classify(r[i]).Skip?
  {
    if lines == [] then []
    else if classify(lines[0]).Skip? then Kept(lines[1..], classify)
    else [lines[0]] + Kept(lines[1..], classify)
  }

  /** Loading the lines of a file in format `f`. */
  function Load<C>(f: Format<C>, lines: seq<ReadLine>): (r: Result<seq<Question<C>>>)
    ensures r.Err? ==> r.errors != []
  {
    Finish(Classified(lines, f.classify))
  }

  function RenderQuestion<C>(f: Format<C>, q: Question<C>): (ls: seq<ReadLine>)
    ensures |ls| == 1 + |q.clues|
  {
    [Read(f.headerLine(q.questionType, q.connection))]
      + seq(|q.clues|, i requires 0 <= i < |q.clues| => Read(f.clueLine(q.clues[i])))
  }

  /** Questions written out one after another. */
  function Render<C>(f: Format<C>, qs: seq<Question<C>>): seq<ReadLine> {
    if qs == [] then [] else RenderQuestion(f, qs[0]) + Render(f, qs[1..])
  }

  /** A question the format can carry: four clues, each writable. */
  predicate Loadable<C>(f: Format<C>, q: Question<C>) {
    |q.clues| == 4 && forall i :: 0 <= i < 4 ==> f.writable(q.clues[i])
  }

  predicate AllLoadable<C>(f: Format<C>, qs: seq<Question<C>>) {
    forall i :: 0 <= i < |qs| ==> Loadable(f, qs[i])
  }

  // ---------------------------------------------------------------------------
  // Lemmas

  /** Classifying and dropping the ignored lines commute. */
  lemma {:induction false} SignificantClassified<C>(lines: seq<ReadLine>, classify: ReadLine -> LineKind<C>)
    ensures Significant(Classified(lines, classify)) == Classified(Kept(lines, classify), classify)
  {
    if lines != [] {
      ClassifiedCons(lines[0], lines[1..], classify);
      assert [lines[0]] + lines[1..] == lines;
      SignificantClassified(lines[1..], classify);
      if !classify(lines[0]).Skip? {
        ClassifiedCons(lines[0], Kept(lines[1..], classify), classify);
      }
    }
  }

  /** Classifying is line by line. */
  lemma ClassifiedCons<C>(line: ReadLine, rest: seq<ReadLine>, classify: ReadLine -> LineKind<C>)
    ensures Classified([line] + rest, classify) == [classify(line)] + Classified(rest, classify)
  {
    assert forall i :: 1 <= i <= |rest| ==> ([line] + rest)[i] == rest[i - 1];
  }

  /** A format that ignores no line keeps every line. */
  lemma {:induction false} KeptAll<C>(lines: seq<ReadLine>, classify: ReadLine -> LineKind<C>)
    requires forall i :: 0 <= i < |lines| ==> !classify(lines[i]).Skip?
    ensures Kept(lines, classify) == lines
  {
    if lines != [] {
      assert forall i :: 0 <= i < |lines| - 1 ==> lines[1..][i] == lines[i + 1];
      KeptAll(lines[1..], classify);
      assert lines == [lines[0]] + lines[1..];
    }
  }

  /** Five lines are the block of `q` exactly when they are `q` written out and the format can carry `q`. */
  lemma BlockIff<C(!new)>(f: Format<C>, ls: seq<ReadLine>, q: Question<C>)
    requires Faithful(f) && |ls| == 5
    ensures IsBlock(Classified(ls, f.classify), q) <==> Loadable(f, q) && ls == RenderQuestion(f, q)
  {
    var ks := Classified(ls, f.classify);
    if IsBlock(ks, q) {
      assert ls[0] == Read(f.headerLine(q.questionType, q.connection));
      forall j | 0 <= j < 4
        ensures ls[j + 1] == Read(f.clueLine(q.clues[j])) && f.writable(q.clues[j])
      {
        assert ks[j + 1] == f.classify(ls[j + 1]);
      }
      assert ls == RenderQuestion(f, q);
    }
    if Loadable(f, q) && ls == RenderQuestion(f, q) {
      assert ls[0] == Read(f.headerLine(q.questionType, q.connection));
      assert ks[0] == Header(q.questionType, q.connection);
      forall i | 1 <= i < 5
        ensures ks[i].Clue? && ks[i].clue == q.clues[i - 1]
      {
        assert ls[i] == Read(f.clueLine(q.clues[i - 1]));
      }
      assert IsBlock(ks, q);
    }
  }

  /** The classified lines are blocks of `qs` exactly when they are `qs` written out and the format can carry `qs`. */
  lemma {:induction false} BlocksIff<C(!new)>(f: Format<C>, lines: seq<ReadLine>, qs: seq<Question<C>>)
    requires Faithful(f)
    ensures IsBlocks(Classified(lines, f.classify), qs) <==> AllLoadable(f, qs) && lines == Render(f, qs)
    decreases |qs|
  {
    var ks := Classified(lines, f.classify);
    if qs == [] {
      assert ks == [] <==> lines == [];
    } else {
      var q := qs[0];
      if 5 <= |lines| {
        assert ks[..5] == Classified(lines[..5], f.classify) && ks[5..] == Classified(lines[5..], f.classify);
        BlockIff(f, lines[..5], q);
        BlocksIff(f, lines[5..], qs[1..]);
        assert lines == lines[..5] + lines[5..];
      }
      if AllLoadable(f, qs) {
        assert AllLoadable(f, qs[1..]) by {
          assert forall i :: 0 <= i < |qs| - 1 ==> qs[1..][i] == qs[i + 1];
        }
      }
      if AllLoadable(f, qs[1..]) && Loadable(f, q) {
        assert AllLoadable(f, qs) by {
          assert forall i :: 1 <= i < |qs| ==> qs[i] == qs[1..][i - 1];
        }
      }
    }
  }

  /**
    In a faithful format, the lines load as `qs` exactly when, ignored lines
    aside, they are `qs` written out and the format can carry every question.
  */
  lemma LoadOkIff<C(!new)>(f: Format<C>, lines: seq<ReadLine>, qs: seq<Question<C>>)
    requires Faithful(f)
    ensures Load(f, lines) == Ok(qs) <==> AllLoadable(f, qs) && Kept(lines, f.classify) == Render(f, qs)
  {
    SignificantClassified(lines, f.classify);
    FinishOkIff(Classified(lines, f.classify), qs);
    BlocksIff(f, Kept(lines, f.classify), qs);
  }

  /** Writing questions the format can carry and loading them back gives the same questions. */
  lemma RoundTrip<C(!new)>(f: Format<C>, qs: seq<Question<C>>)
    requires Faithful(f) && AllLoadable(f, qs)
    ensures Load(f, Render(f, qs)) == Ok(qs)
  {
    var ks := Classified(Render(f, qs), f.classify);
    BlocksIff(f, Render(f, qs), qs);
    BlocksHaveNoSkip(ks, qs);
    NoSkipIsSignificant(ks);
    FinishOkIff(ks, qs);
  }

  /** Every question a format can carry has four clues. */
  lemma LoadableHasFour<C>(f: Format<C>, qs: seq<Question<C>>)
    requires AllLoadable(f, qs)
    ensures AllFour(qs)
  {
  }
}
