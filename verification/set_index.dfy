/**
  The index file (`load_question_sets`, src/questions.rs:48-86): every line
  is a comment, or `include_shuffle: <file>` naming a set file to load, whose
  questions are then shuffled. Errors from every line are collected; the
  index loads only when there are none.

  The loop is written over `load`, the function loading one named set file;
  `LoadQuestionSets` passes it `SetLoader.LoadQuestions`. The shuffle is the
  parameter `order`: `order(k, qs)` is the order the `k`-th loaded set's
  questions are put in, since the program draws it from a random generator.
*/
module SetIndex {
  import opened Strings
  import opened Loading
  import opened SetLoader

  const IncludePrefix := "include_shuffle: "

  type Loader = string -> Result<QuestionSet>
  type Shuffle = (nat, seq<Question<Clue>>) -> seq<Question<Clue>>

  /** The sets loaded so far and the errors met so far (`outputs`, `errors`). */
  datatype Collected = Collected(outputs: seq<QuestionSet>, errors: seq<LoadError>)

  const Nothing := Collected([], [])

  /** The line names a set file to load: it is not a comment and starts with `include_shuffle: `. */
  predicate IsInclude(line: ReadLine) {
    line.Read? && !IsComment(line.text) && HasPrefix(line.text, IncludePrefix)
  }

  /** One iteration of the loop at src/questions.rs:55-79. */
  function CollectStep(acc: Collected, line: ReadLine, load: Loader, order: Shuffle): (r: Collected)
    ensures acc.outputs <= r.outputs && acc.errors <= r.errors
    ensures |r.outputs| <= |acc.outputs| + 1
    ensures !IsInclude(line) ==> r.outputs == acc.outputs
  {
    match line
    case Failed(m) => acc.(errors := acc.errors + [ReadFailure(m)])
    case Read(l) =>
      if IsComment(l) then acc
      else if HasPrefix(l, IncludePrefix) then
        match load(l[|IncludePrefix|..])
        case Ok(s) => acc.(outputs := acc.outputs + [Shuffled(s, order, |acc.outputs|)])
        case Err(es) => acc.(errors := acc.errors + es)
      else acc.(errors := acc.errors + [UnknownCommand(l)])
  }

  /** Set `s` as the `k`-th set loaded: its questions shuffled. */
  function Shuffled(s: QuestionSet, order: Shuffle, k: nat): QuestionSet {
    s.(questions := order(k, s.questions))
  }

  /** The loop over the index. Loaded sets and errors only ever grow. */
  function Collect(acc: Collected, lines: seq<ReadLine>, load: Loader, order: Shuffle): (r: Collected)
    ensures acc.outputs <= r.outputs && acc.errors <= r.errors
    decreases |lines|
  {
    if lines == [] then acc else Collect(CollectStep(acc, lines[0], load, order), lines[1..], load, order)
  }

  /** Loading set files from `files`, with the pictures in `images`. */
  function SetFiles(files: map<string, seq<ReadLine>>, images: set<string>): Loader {
    name => LoadQuestions(files, images, name)
  }

  /** `load_question_sets(path)`: an index that cannot be opened is reported as such and nothing else. */
  function LoadQuestionSets(files: map<string, seq<ReadLine>>, images: set<string>, order: Shuffle, path: string)
    : (r: Result<seq<QuestionSet>>)
    ensures path !in files ==> r == Err([CannotOpen(path)])
  {
    if path !in files then Err([CannotOpen(path)])
    else
      var acc := Collect(Nothing, files[path], SetFiles(files, images), order);
      if acc.errors == [] then Ok(acc.outputs) else Err(acc.errors)
  }

  // ---------------------------------------------------------------------------
  // What the loop should produce

  /** The set files an index names, in order. */
  function Includes(lines: seq<ReadLine>): seq<string> {
    if lines == [] then []
    else (if IsInclude(lines[0]) then [lines[0].text[|IncludePrefix|..]] else []) + Includes(lines[1..])
  }

  /** A line the loop passes without error: a comment, or an include of a set that loads. */
  predicate Accepted(line: ReadLine, load: Loader) {
    line.Read? && (IsComment(line.text) || (IsInclude(line) && load(line.text[|IncludePrefix|..]).Ok?))
  }

  /** `outs`, from position `start` on, are the sets named in `names`, each shuffled as the set loaded at its position. */
  predicate LoadedInOrder(outs: seq<QuestionSet>, start: nat, names: seq<string>, load: Loader, order: Shuffle) {
    && |outs| == start + |names|
    && forall k :: 0 <= k < |names| ==> load(names[k]).Ok? && outs[start + k] == Shuffled(load(names[k]).value, order, start + k)
  }

  /** A failing load always says why. */
  ghost predicate Explains(load: Loader) {
    forall name :: load(name).Err? ==> load(name).errors != []
  }

  /** A shuffle only reorders. */
  ghost predicate IsShuffle(order: Shuffle) {
    forall k, qs :: multiset(order(k, qs)) == multiset(qs)
  }

  /** `s` is the set `load` gives for `name`, its questions in some order. */
  ghost predicate ShuffledFrom(s: QuestionSet, load: Loader, name: string) {
    load(name).Ok? && s.title == load(name).value.title && multiset(s.questions) == multiset(load(name).value.questions)
  }

  /**
    The errors one index line adds, whatever came before it: its read error,
    the errors of the set it includes, or an unknown-command error.
  */
  function LineErrors(line: ReadLine, load: Loader): seq<LoadError> {
    match line
    case Failed(m) => [ReadFailure(m)]
    case Read(l) =>
      if IsComment(l) then []
      else if HasPrefix(l, IncludePrefix) then
        var r := load(l[|IncludePrefix|..]);
        if r.Ok? then [] else r.errors
      else [UnknownCommand(l)]
  }

  function AllLineErrors(lines: seq<ReadLine>, load: Loader): seq<LoadError> {
    if lines == [] then [] else LineErrors(lines[0], load) + AllLineErrors(lines[1..], load)
  }

  // ---------------------------------------------------------------------------
  // Lemmas

  /** The set-file loader always says why it fails. */
  lemma SetFilesExplain(files: map<string, seq<ReadLine>>, images: set<string>)
    ensures Explains(SetFiles(files, images))
  {
  }

  /** A line adds no error exactly when it is accepted. */
  lemma LineErrorsIff(line: ReadLine, load: Loader)
    requires Explains(load)
    ensures LineErrors(line, load) == [] <==> Accepted(line, load)
  {
  }

  /** One line adds its own errors and nothing else to those met so far. */
  lemma StepErrors(acc: Collected, line: ReadLine, load: Loader, order: Shuffle)
    ensures CollectStep(acc, line, load, order).errors == acc.errors + LineErrors(line, load)
  {
  }

  /** An accepted line adds its set, shuffled, when it is an include, and nothing when it is a comment. */
  lemma StepOutputs(acc: Collected, line: ReadLine, load: Loader, order: Shuffle)
    requires Accepted(line, load)
    ensures var r := CollectStep(acc, line, load, order);
      && (IsInclude(line) ==> r.outputs == acc.outputs + [Shuffled(load(line.text[|IncludePrefix|..]).value, order, |acc.outputs|)])
      && (!IsInclude(line) ==> r.outputs == acc.outputs)
  {
  }

  /** The loop reports, in order, exactly the errors of its lines; it depends on nothing else. */
  lemma {:induction false} CollectErrors(acc: Collected, lines: seq<ReadLine>, load: Loader, order: Shuffle)
    ensures Collect(acc, lines, load, order).errors == acc.errors + AllLineErrors(lines, load)
    decreases |lines|
  {
    if lines == [] {
      assert acc.errors + [] == acc.errors;
    } else {
      var acc1 := CollectStep(acc, lines[0], load, order);
      var e, rest := LineErrors(lines[0], load), AllLineErrors(lines[1..], load);
      var r := Collect(acc, lines, load, order);
      assert r.errors == acc1.errors + rest by {
        CollectErrors(acc1, lines[1..], load, order);
      }
      assert acc1.errors == acc.errors + e by {
        StepErrors(acc, lines[0], load, order);
      }
      assert AllLineErrors(lines, load) == e + rest;
      assert (acc.errors + e) + rest == acc.errors + (e + rest);
    }
  }

  lemma {:induction false} NoLineErrorsIff(lines: seq<ReadLine>, load: Loader)
    requires Explains(load)
    ensures AllLineErrors(lines, load) == [] <==> forall i :: 0 <= i < |lines| ==> Accepted(lines[i], load)
    decreases |lines|
  {
    if lines != [] {
      LineErrorsIff(lines[0], load);
      NoLineErrorsIff(lines[1..], load);
      assert forall i :: 1 <= i < |lines| ==> lines[i] == lines[1..][i - 1];
    }
  }

  lemma LoadedInOrderCons(outs: seq<QuestionSet>, start: nat, name: string, rest: seq<string>, load: Loader, order: Shuffle)
    requires LoadedInOrder(outs, start + 1, rest, load, order)
    requires load(name).Ok? && outs[start] == Shuffled(load(name).value, order, start)
    ensures LoadedInOrder(outs, start, [name] + rest, load, order)
  {
    var names := [name] + rest;
    forall k | 0 <= k < |names|
      ensures load(names[k]).Ok? && outs[start + k] == Shuffled(load(names[k]).value, order, start + k)
    {
      if k > 0 {
        assert names[k] == rest[k - 1] && start + k == (start + 1) + (k - 1);
      }
    }
  }

  /** With every line accepted, the loop loads the included sets in order, each one shuffled. */
  lemma {:induction false} CollectContents(acc: Collected, lines: seq<ReadLine>, load: Loader, order: Shuffle)
    requires forall i :: 0 <= i < |lines| ==> Accepted(lines[i], load)
    ensures LoadedInOrder(Collect(acc, lines, load, order).outputs, |acc.outputs|, Includes(lines), load, order)
    decreases |lines|
  {
    if lines != [] {
      var start := |acc.outputs|;
      var acc1 := CollectStep(acc, lines[0], load, order);
      var outs := Collect(acc, lines, load, order).outputs;
      var names, rest := Includes(lines), Includes(lines[1..]);
      assert LoadedInOrder(outs, |acc1.outputs|, rest, load, order) && acc1.outputs <= outs by {
        assert forall i :: 0 <= i < |lines| - 1 ==> lines[1..][i] == lines[i + 1];
        CollectContents(acc1, lines[1..], load, order);
      }
      StepOutputs(acc, lines[0], load, order);
      if IsInclude(lines[0]) {
        var name := lines[0].text[|IncludePrefix|..];
        assert outs[start] == acc1.outputs[start];
        assert names == [name] + rest;
        LoadedInOrderCons(outs, start, name, rest, load, order);
      } else {
        assert names == rest;
      }
    }
  }

  /** The index loads exactly when it opens and every line is a comment or an include of a set that loads. */
  lemma LoadQuestionSetsOkIff(files: map<string, seq<ReadLine>>, images: set<string>, order: Shuffle, path: string)
    ensures LoadQuestionSets(files, images, order, path).Ok? <==>
      path in files && forall i :: 0 <= i < |files[path]| ==> Accepted(files[path][i], SetFiles(files, images))
  {
    if path in files {
      var load := SetFiles(files, images);
      SetFilesExplain(files, images);
      CollectErrors(Nothing, files[path], load, order);
      NoLineErrorsIff(files[path], load);
    }
  }

  /** When an index that opens fails, its errors are those of its lines, in order. */
  lemma LoadQuestionSetsErrors(files: map<string, seq<ReadLine>>, images: set<string>, order: Shuffle, path: string)
    requires path in files && LoadQuestionSets(files, images, order, path).Err?
    ensures LoadQuestionSets(files, images, order, path).errors == AllLineErrors(files[path], SetFiles(files, images))
  {
    CollectErrors(Nothing, files[path], SetFiles(files, images), order);
  }

  /** A loaded index holds one set per include line, in order: that file's set, its questions shuffled. */
  lemma LoadQuestionSetsContents(files: map<string, seq<ReadLine>>, images: set<string>, order: Shuffle, path: string)
    requires IsShuffle(order) && LoadQuestionSets(files, images, order, path).Ok?
    ensures var sets, names := LoadQuestionSets(files, images, order, path).value, Includes(files[path]);
      && |sets| == |names|
      && forall k :: 0 <= k < |names| ==> ShuffledFrom(sets[k], SetFiles(files, images), names[k])
  {
    var load := SetFiles(files, images);
    var sets, names := LoadQuestionSets(files, images, order, path).value, Includes(files[path]);
    LoadQuestionSetsOkIff(files, images, order, path);
    CollectContents(Nothing, files[path], load, order);
    forall k | 0 <= k < |names|
      ensures ShuffledFrom(sets[k], load, names[k])
    {
      var s := load(names[k]).value;
      assert sets[k] == Shuffled(s, order, k);
      assert multiset(order(k, s.questions)) == multiset(s.questions);
    }
  }
}
