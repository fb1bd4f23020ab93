/**
  The greedy word-wrap `split_text` of src/main.rs.

  A word is a maximal run of characters other than the ASCII space. The
  source finds word starts with the regex `(?:^| )[^ ]` and word ends with
  `[^ ](?:$| )`; here both are computed directly, by scanning offsets, as the
  sorted lists of all offsets where those regexes match (`m.end() - 1` for a
  start, `m.start() + 1` for an end). Text is a sequence of characters, so an
  offset is a character index. The font's `size_of` is the parameter `measure`.
*/
module TextWrap {

  /** Offset `p` holds the first character of a word. */
  predicate IsWordStart(text: string, p: int) {
    0 <= p < |text| && text[p] != ' ' && (p == 0 || text[p - 1] == ' ')
  }

  /** Offset `e` is one past the last character of a word. */
  predicate IsWordEnd(text: string, e: int) {
    0 < e <= |text| && text[e - 1] != ' ' && (e == |text| || text[e] == ' ')
  }

  predicate Increasing(s: seq<nat>) {
    forall a, b :: 0 <= a < b < |s| ==> s[a] < s[b]
  }

  /** The word starts in `[lo, hi)`, in order: what `find_iter` yields for the start regex. */
  function StartsIn(text: string, lo: nat, hi: nat): (r: seq<nat>)
    ensures forall k :: 0 <= k < |r| ==> lo <= r[k] < hi && IsWordStart(text, r[k])
    decreases hi - lo
  {
    if lo >= hi then []
    else (if IsWordStart(text, lo) then [lo] else []) + StartsIn(text, lo + 1, hi)
  }

  /** The word ends in `[lo, hi)`, in order: what `find_iter` yields for the end regex. */
  function EndsIn(text: string, lo: nat, hi: nat): (r: seq<nat>)
    ensures forall k :: 0 <= k < |r| ==> lo <= r[k] < hi && IsWordEnd(text, r[k])
    decreases hi - lo
  {
    if lo >= hi then []
    else (if IsWordEnd(text, lo) then [lo] else []) + EndsIn(text, lo + 1, hi)
  }

  /** The word starts come out in strictly increasing order. */
  lemma {:induction false} StartsInIncreasing(text: string, lo: nat, hi: nat)
    ensures Increasing(StartsIn(text, lo, hi))
    decreases hi - lo
  {
    if lo < hi {
      StartsInIncreasing(text, lo + 1, hi);
    }
  }

  /** The word ends come out in strictly increasing order. */
  lemma {:induction false} EndsInIncreasing(text: string, lo: nat, hi: nat)
    ensures Increasing(EndsIn(text, lo, hi))
    decreases hi - lo
  {
    if lo < hi {
      EndsInIncreasing(text, lo + 1, hi);
    }
  }

  /** No word start in `[lo, hi)` is missed. */
  lemma {:induction false} StartsInComplete(text: string, lo: nat, hi: nat, p: nat)
    requires lo <= p < hi && IsWordStart(text, p)
    ensures p in StartsIn(text, lo, hi)
    decreases hi - lo
  {
    if lo < p {
      StartsInComplete(text, lo + 1, hi, p);
    }
  }

  /** No word end in `[lo, hi)` is missed. */
  lemma {:induction false} EndsInComplete(text: string, lo: nat, hi: nat, e: nat)
    requires lo <= e < hi && IsWordEnd(text, e)
    ensures e in EndsIn(text, lo, hi)
    decreases hi - lo
  {
    if lo < e {
      EndsInComplete(text, lo + 1, hi, e);
    }
  }

  function WordStarts(text: string): seq<nat> {
    StartsIn(text, 0, |text|)
  }

  function WordEnds(text: string): seq<nat> {
    EndsIn(text, 0, |text| + 1)
  }

  /** Starts and ends pair up: `s[k] < e[k] < s[k + 1]`. */
  predicate Alternate(s: seq<nat>, e: seq<nat>) {
    && |s| == |e|
    && (forall k :: 0 <= k < |s| ==> s[k] < e[k])
    && (forall k :: 0 < k < |s| ==> e[k - 1] < s[k])
  }

  /** As `Alternate`, for a scan that begins inside a word whose end is still ahead. */
  predicate AlternateOpen(s: seq<nat>, e: seq<nat>) {
    && |e| == |s| + 1
    && (forall k :: 0 <= k < |s| ==> e[k] < s[k] < e[k + 1])
  }

  /** The character before `lo` belongs to a word. */
  predicate InWord(text: string, lo: nat) {
    0 < lo <= |text| && text[lo - 1] != ' '
  }

  lemma PrependEnd(s: seq<nat>, e: seq<nat>, x: nat)
    requires Alternate(s, e)
    requires forall k :: 0 <= k < |s| ==> x < s[k]
    ensures AlternateOpen(s, [x] + e)
  {
  }

  lemma PrependStart(s: seq<nat>, e: seq<nat>, x: nat)
    requires AlternateOpen(s, e)
    requires x < e[0]
    ensures Alternate([x] + s, e)
  {
  }

  lemma {:induction false} AlternateFrom(text: string, lo: nat)
    requires lo <= |text|
    ensures InWord(text, lo) ==> AlternateOpen(StartsIn(text, lo, |text|), EndsIn(text, lo, |text| + 1))
    ensures !InWord(text, lo) ==> Alternate(StartsIn(text, lo, |text|), EndsIn(text, lo, |text| + 1))
    decreases |text| - lo
  {
    if lo == |text| {
      assert EndsIn(text, lo + 1, |text| + 1) == [];
      assert InWord(text, lo) <==> IsWordEnd(text, lo);
    } else {
      AlternateFrom(text, lo + 1);
      AlternateStep(text, lo);
    }
  }

  /** One scanning step of `AlternateFrom`: from offset `lo + 1` back to `lo`. */
  lemma AlternateStep(text: string, lo: nat)
    requires lo < |text|
    requires InWord(text, lo + 1) ==> AlternateOpen(StartsIn(text, lo + 1, |text|), EndsIn(text, lo + 1, |text| + 1))
    requires !InWord(text, lo + 1) ==> Alternate(StartsIn(text, lo + 1, |text|), EndsIn(text, lo + 1, |text| + 1))
    ensures InWord(text, lo) ==> AlternateOpen(StartsIn(text, lo, |text|), EndsIn(text, lo, |text| + 1))
    ensures !InWord(text, lo) ==> Alternate(StartsIn(text, lo, |text|), EndsIn(text, lo, |text| + 1))
  {
    var s', e' := StartsIn(text, lo + 1, |text|), EndsIn(text, lo + 1, |text| + 1);
    var s, e := StartsIn(text, lo, |text|), EndsIn(text, lo, |text| + 1);
    if IsWordEnd(text, lo) {
      ScanAtEnd(text, lo);
      PrependEnd(s', e', lo);
    } else if IsWordStart(text, lo) {
      ScanAtStart(text, lo);
      PrependStart(s', e', lo);
    } else {
      ScanInside(text, lo);
    }
  }

  lemma ScanAtEnd(text: string, lo: nat)
    requires lo < |text| && IsWordEnd(text, lo)
    ensures StartsIn(text, lo, |text|) == StartsIn(text, lo + 1, |text|)
    ensures EndsIn(text, lo, |text| + 1) == [lo] + EndsIn(text, lo + 1, |text| + 1)
    ensures InWord(text, lo) && !InWord(text, lo + 1)
  {
    assert !IsWordStart(text, lo);
    assert [] + StartsIn(text, lo + 1, |text|) == StartsIn(text, lo + 1, |text|);
  }

  lemma ScanAtStart(text: string, lo: nat)
    requires lo < |text| && IsWordStart(text, lo)
    ensures StartsIn(text, lo, |text|) == [lo] + StartsIn(text, lo + 1, |text|)
    ensures EndsIn(text, lo, |text| + 1) == EndsIn(text, lo + 1, |text| + 1)
    ensures !InWord(text, lo) && InWord(text, lo + 1)
  {
    assert !IsWordEnd(text, lo);
    assert [] + EndsIn(text, lo + 1, |text| + 1) == EndsIn(text, lo + 1, |text| + 1);
  }

  lemma ScanInside(text: string, lo: nat)
    requires lo < |text| && !IsWordStart(text, lo) && !IsWordEnd(text, lo)
    ensures StartsIn(text, lo, |text|) == StartsIn(text, lo + 1, |text|)
    ensures EndsIn(text, lo, |text| + 1) == EndsIn(text, lo + 1, |text| + 1)
    ensures InWord(text, lo) <==> InWord(text, lo + 1)
  {
    assert [] + StartsIn(text, lo + 1, |text|) == StartsIn(text, lo + 1, |text|);
    assert [] + EndsIn(text, lo + 1, |text| + 1) == EndsIn(text, lo + 1, |text| + 1);
  }

  /**
    The lengths the source asserts equal at src/main.rs:483 are equal, and
    each word's start lies before its end, which lies before the next start.
  */
  lemma WordBoundaries(text: string)
    ensures Alternate(WordStarts(text), WordEnds(text))
    ensures forall k :: 0 <= k < |WordEnds(text)| ==> WordEnds(text)[k] <= |text|
  {
    AlternateFrom(text, 0);
  }

  /** Scanning on from a non-space character reaches the end of its word, with no space on the way. */
  lemma {:induction false} WordExtent(text: string, s: nat) returns (q: nat)
    requires s < |text| && text[s] != ' '
    ensures s < q && IsWordEnd(text, q)
    ensures forall p :: s <= p < q ==> text[p] != ' '
    decreases |text| - s
  {
    if s + 1 == |text| || text[s + 1] == ' ' {
      q := s + 1;
    } else {
      q := WordExtent(text, s + 1);
    }
  }

  lemma IndexOf(s: seq<nat>, x: nat) returns (j: nat)
    requires x in s
    ensures j < |s| && s[j] == x
  {
    j :| 0 <= j < |s| && s[j] == x;
  }

  /** In an increasing list, an element above `lower` lies at or after the first position `k` past `lower`. */
  lemma NotBefore(s: seq<nat>, k: nat, q: nat, lower: nat)
    requires Increasing(s) && k < |s| && q in s && lower < q
    requires 0 < k ==> s[k - 1] < lower
    ensures s[k] <= q
  {
    var j := IndexOf(s, q);
    assert k <= j by {
      if 0 < k {
        assert s[k - 1] < s[j];
      }
    }
  }

  /** No word ends between the start of word `k` and its end. */
  lemma EndNotBeforeExtent(text: string, k: nat, q: nat)
    requires k < WordCount(text) && WordStarts(text)[k] < q && IsWordEnd(text, q)
    ensures k < |WordEnds(text)| && WordEnds(text)[k] <= q
  {
    var S, E := WordStarts(text), WordEnds(text);
    assert k < |E| && (0 < k ==> E[k - 1] < S[k]) by {
      RunBounds(text, k, k);
    }
    EndsInIncreasing(text, 0, |text| + 1);
    EndsInComplete(text, 0, |text| + 1, q);
    NotBefore(E, k, q, S[k]);
  }

  /** The end of word `k` is the first word end after its start. */
  lemma WordEndIsExtent(text: string, k: nat, q: nat)
    requires k < WordCount(text) && WordStarts(text)[k] < q && IsWordEnd(text, q)
    requires forall p :: WordStarts(text)[k] <= p < q ==> text[p] != ' '
    ensures k < |WordEnds(text)| && WordEnds(text)[k] == q
  {
    var E := WordEnds(text);
    SegmentBounds(text, k, k);
    EndNotBeforeExtent(text, k, q);
    assert IsWordEnd(text, E[k]);
  }

  /** A word holds no space: word `k` is a run of non-space characters. */
  lemma WordIsSpaceFree(text: string, k: nat)
    requires k < WordCount(text)
    ensures ' ' !in Segment(text, k, k)
  {
    var S := WordStarts(text);
    SegmentBounds(text, k, k);
    var q := WordExtent(text, S[k]);
    WordEndIsExtent(text, k, q);
    assert Segment(text, k, k) == text[S[k]..q];
  }

  lemma {:induction false} NonSpaceHasWordStart(text: string, p: nat) returns (s: nat)
    requires p < |text| && text[p] != ' '
    ensures s <= p && IsWordStart(text, s)
    decreases p
  {
    if p == 0 || text[p - 1] == ' ' {
      s := p;
    } else {
      s := NonSpaceHasWordStart(text, p - 1);
    }
  }

  /** The text has no word exactly when every character is a space. */
  lemma NoWordsIffBlank(text: string)
    ensures |WordStarts(text)| == 0 <==> forall p :: 0 <= p < |text| ==> text[p] == ' '
  {
    if |WordStarts(text)| > 0 {
      assert IsWordStart(text, WordStarts(text)[0]);
    }
    if exists p :: 0 <= p < |text| && text[p] != ' ' {
      var p :| 0 <= p < |text| && text[p] != ' ';
      var s := NonSpaceHasWordStart(text, p);
      StartsInComplete(text, 0, |text|, s);
    }
  }

  function WordCount(text: string): nat {
    |WordStarts(text)|
  }

  /** The slice from the start of word `i` to the end of word `j`. */
  function Segment(text: string, i: nat, j: nat): string
    requires i <= j < WordCount(text)
  {
    var S, E := WordStarts(text), WordEnds(text);
    // the guard always holds (`SegmentBounds`)
    if j < |E| && S[i] <= E[j] <= |text| then text[S[i]..E[j]] else []
  }

  lemma SegmentBounds(text: string, i: nat, j: nat)
    requires i <= j < WordCount(text)
    ensures j < |WordEnds(text)|
    ensures WordStarts(text)[i] < WordEnds(text)[j] <= |text|
    ensures text[WordStarts(text)[i]] != ' ' && text[WordEnds(text)[j] - 1] != ' '
    ensures Segment(text, i, j) == text[WordStarts(text)[i]..WordEnds(text)[j]]
  {
    var S, E := WordStarts(text), WordEnds(text);
    assert j < |E| && S[i] < E[j] <= |text| by {
      WordBoundaries(text);
      EndsInIncreasing(text, 0, |text| + 1);
      assert S[i] < E[i];
      assert i < j ==> E[i] < E[j];
    }
    assert text[S[i]] != ' ' by {
      assert IsWordStart(text, S[i]);
    }
    assert text[E[j] - 1] != ' ' by {
      assert IsWordEnd(text, E[j]);
    }
  }

  /** Word `a` starts after the end of word `a - 1`, and word `b` ends before word `b + 1` starts. */
  lemma RunBounds(text: string, a: nat, b: nat)
    requires a <= b < WordCount(text)
    ensures var S, E := WordStarts(text), WordEnds(text);
      |S| == |E| && b < |E| && S[a] < E[a] && S[a] < E[b] && S[b] < E[b] <= |text|
      && (0 < a ==> S[a - 1] < E[a - 1] < S[a]) && (b + 1 < |S| ==> E[b] < S[b + 1] < E[b + 1])
  {
    SegmentBounds(text, a, b);
    WordBoundaries(text);
  }

  /** The run of words `i..j` measures at most `width`: the test at src/main.rs:495. */
  predicate Fits(text: string, measure: string -> nat, width: nat, i: nat, j: nat)
    requires i <= j < WordCount(text)
  {
    measure(Segment(text, i, j)) <= width
  }

  /**
    The line beginning at word `i` ends at word `j`: either word `i` alone does
    not fit and `j == i`, or every run `i..k` with `k <= j` fits and the run
    `i..j + 1` does not (or there is no word `j + 1`).
  */
  predicate Greedy(text: string, measure: string -> nat, width: nat, i: nat, j: nat)
    requires i <= j < WordCount(text)
  {
    || (j == i && !Fits(text, measure, width, i, i))
    || (&& (forall k :: i <= k <= j ==> Fits(text, measure, width, i, k))
        && (j + 1 == WordCount(text) || !Fits(text, measure, width, i, j + 1)))
  }

  /** The inner `for jx in i..` loop, from `jx` on, once the runs `i..jx - 1` have all fitted. */
  function ScanFrom(text: string, measure: string -> nat, width: nat, i: nat, jx: nat): (j: nat)
    requires i < jx <= WordCount(text)
    requires forall k :: i <= k < jx ==> Fits(text, measure, width, i, k)
    ensures jx - 1 <= j < WordCount(text)
    ensures forall k :: i <= k <= j ==> Fits(text, measure, width, i, k)
    ensures j + 1 == WordCount(text) || !Fits(text, measure, width, i, j + 1)
    decreases WordCount(text) - jx
  {
    if jx == WordCount(text) || !Fits(text, measure, width, i, jx) then jx - 1
    else ScanFrom(text, measure, width, i, jx + 1)
  }

  /** The last word of the line that begins with word `i` (`j` after the inner loop). */
  function LastWordOfLine(text: string, measure: string -> nat, width: nat, i: nat): (j: nat)
    requires i < WordCount(text)
    ensures i <= j < WordCount(text)
    ensures Greedy(text, measure, width, i, j)
  {
    if Fits(text, measure, width, i, i) then ScanFrom(text, measure, width, i, i + 1) else i
  }

  /** Only one last word satisfies the greedy rule: the line is determined by its first word. */
  lemma GreedyUnique(text: string, measure: string -> nat, width: nat, i: nat, j: nat, j': nat)
    requires i <= j < WordCount(text) && i <= j' < WordCount(text)
    requires Greedy(text, measure, width, i, j) && Greedy(text, measure, width, i, j')
    ensures j == j'
  {

  }

  /** `g` lists word ranges that are non-empty, consecutive, and cover the words `lo..hi - 1` in order. */
  predicate Covers(g: seq<(nat, nat)>, lo: nat, hi: nat) {
    && (g == [] <==> lo == hi)
    && (g != [] ==> g[0].0 == lo && g[|g| - 1].1 + 1 == hi)
    && (forall k :: 0 <= k < |g| ==> g[k].0 <= g[k].1)
    && (forall k :: 0 < k < |g| ==> g[k].0 == g[k - 1].1 + 1)
  }

  /** The word ranges of the lines the outer `while i < word_starts.len()` loop emits, from word `i` on. */
  function LineRangesFrom(text: string, measure: string -> nat, width: nat, i: nat): (g: seq<(nat, nat)>)
    requires i <= WordCount(text)
    ensures Covers(g, i, WordCount(text))
    ensures forall k :: 0 <= k < |g| ==> g[k].1 < WordCount(text) && Greedy(text, measure, width, g[k].0, g[k].1)
    decreases WordCount(text) - i
  {
    if i == WordCount(text) then []
    else
      var j := LastWordOfLine(text, measure, width, i);
      [(i, j)] + LineRangesFrom(text, measure, width, j + 1)
  }

  function LineRanges(text: string, measure: string -> nat, width: nat): (g: seq<(nat, nat)>)
    ensures Covers(g, 0, WordCount(text))
    ensures forall k :: 0 <= k < |g| ==> g[k].1 < WordCount(text) && Greedy(text, measure, width, g[k].0, g[k].1)
  {
    LineRangesFrom(text, measure, width, 0)
  }

  /** `split_text`: the text of each line, in order. */
  function SplitText(text: string, measure: string -> nat, width: nat): (lines: seq<string>)
    ensures |lines| == |LineRanges(text, measure, width)|
    ensures lines == [] <==> WordCount(text) == 0
  {
    var g := LineRanges(text, measure, width);
    seq(|g|, k requires 0 <= k < |g| => Segment(text, g[k].0, g[k].1))
  }

  /**
    Line `k` is the text from the start of its first word to the end of its
    last word, and the lines take the words in order, each word exactly once.
  */
  lemma LinesAreWordRuns(text: string, measure: string -> nat, width: nat)
    ensures var lines, g := SplitText(text, measure, width), LineRanges(text, measure, width);
      && |lines| == |g|
      && Covers(g, 0, WordCount(text))
      && forall k :: 0 <= k < |g| ==>
           && g[k].1 < |WordEnds(text)|
           && WordStarts(text)[g[k].0] < WordEnds(text)[g[k].1] <= |text|
           && lines[k] == text[WordStarts(text)[g[k].0]..WordEnds(text)[g[k].1]]
  {
    var g := LineRanges(text, measure, width);
    forall k | 0 <= k < |g| {
      SegmentBounds(text, g[k].0, g[k].1);
    }
  }

  /** Each line measures at most `width`, or is a single word, which holds no space. */
  lemma LinesFitOrSingleWord(text: string, measure: string -> nat, width: nat, k: nat)
    requires k < |SplitText(text, measure, width)|
    ensures var line := SplitText(text, measure, width)[k];
      measure(line) <= width || ' ' !in line
  {
    var g := LineRanges(text, measure, width);
    assert Greedy(text, measure, width, g[k].0, g[k].1);
    if g[k].0 == g[k].1 {
      WordIsSpaceFree(text, g[k].0);
    } else {
      assert Fits(text, measure, width, g[k].0, g[k].1);
    }
  }

  /** No line is empty or begins or ends with a space. */
  lemma LinesAreTrimmed(text: string, measure: string -> nat, width: nat, k: nat)
    requires k < |SplitText(text, measure, width)|
    ensures var line := SplitText(text, measure, width)[k];
      line != [] && line[0] != ' ' && line[|line| - 1] != ' '
  {
    var g := LineRanges(text, measure, width);
    SegmentBounds(text, g[k].0, g[k].1);
  }

  /** Text made only of spaces, the empty text included, yields no line at all. */
  lemma NoLinesIffBlank(text: string, measure: string -> nat, width: nat)
    ensures SplitText(text, measure, width) == [] <==> forall p :: 0 <= p < |text| ==> text[p] == ' '
  {
    NoWordsIffBlank(text);
  }
}

/** Re-wrapping a line that `split_text` produced gives back that line alone. */
module TextWrapIdempotence {
  import opened TextWrap

  lemma {:induction false} StartsInSplit(text: string, lo: nat, m: nat, hi: nat)
    requires lo <= m <= hi
    ensures StartsIn(text, lo, hi) == StartsIn(text, lo, m) + StartsIn(text, m, hi)
    decreases m - lo
  {
    if lo < m {
      StartsInSplit(text, lo + 1, m, hi);
    }
  }

  lemma {:induction false} EndsInSplit(text: string, lo: nat, m: nat, hi: nat)
    requires lo <= m <= hi
    ensures EndsIn(text, lo, hi) == EndsIn(text, lo, m) + EndsIn(text, m, hi)
    decreases m - lo
  {
    if lo < m {
      EndsInSplit(text, lo + 1, m, hi);
    }
  }

  lemma StartsInSplit3(text: string, x: nat, y: nat)
    requires x <= y <= |text|
    ensures WordStarts(text) == StartsIn(text, 0, x) + StartsIn(text, x, y) + StartsIn(text, y, |text|)
  {
    StartsInSplit(text, 0, y, |text|);
    StartsInSplit(text, 0, x, y);
  }

  lemma EndsInSplit3(text: string, x: nat, y: nat)
    requires x <= y <= |text| + 1
    ensures WordEnds(text) == EndsIn(text, 0, x) + EndsIn(text, x, y) + EndsIn(text, y, |text| + 1)
  {
    EndsInSplit(text, 0, y, |text| + 1);
    EndsInSplit(text, 0, x, y);
  }

  /** Two lists that differ by the offset `x` elementwise. */
  predicate Offset(s: seq<nat>, s': seq<nat>, x: nat) {
    |s| == |s'| && forall k :: 0 <= k < |s| ==> s[k] + x == s'[k]
  }

  /** Putting `a` in front of one list and `a + x` in front of the other, or neither, keeps the offset. */
  lemma OffsetStep(r: seq<nat>, r': seq<nat>, a: nat, x: nat, keep: bool)
    requires Offset(r, r', x)
    ensures Offset((if keep then [a] else []) + r, (if keep then [a + x] else []) + r', x)
  {
    if !keep {
      assert [] + r == r && [] + r' == r';
    }
  }

  /** The words of `text[x..y]`, cut at word boundaries, are the words of `text` in that range. */
  lemma {:induction false} StartsInSlice(text: string, x: nat, y: nat, lo: nat, hi: nat)
    requires x <= y <= |text| && (x == 0 || text[x - 1] == ' ')
    requires lo <= hi <= y - x
    ensures Offset(StartsIn(text[x..y], lo, hi), StartsIn(text, x + lo, x + hi), x)
    decreases hi - lo
  {
    if lo < hi {
      var line := text[x..y];
      var r, r' := StartsIn(line, lo + 1, hi), StartsIn(text, x + lo + 1, x + hi);
      assert Offset(r, r', x) by {
        StartsInSlice(text, x, y, lo + 1, hi);
      }
      var keep := IsWordStart(text, x + lo);
      assert IsWordStart(line, lo) == keep by {
        assert line[lo] == text[x + lo];
        assert 0 < lo ==> line[lo - 1] == text[x + lo - 1];
      }
      OffsetStep(r, r', lo, x, keep);
    }
  }

  lemma {:induction false} EndsInSlice(text: string, x: nat, y: nat, lo: nat, hi: nat)
    requires x <= y <= |text| && (x == 0 || text[x - 1] == ' ') && (y == |text| || text[y] == ' ')
    requires lo <= hi <= y - x + 1
    ensures Offset(EndsIn(text[x..y], lo, hi), EndsIn(text, x + lo, x + hi), x)
    decreases hi - lo
  {
    if lo < hi {
      var line := text[x..y];
      var r, r' := EndsIn(line, lo + 1, hi), EndsIn(text, x + lo + 1, x + hi);
      assert Offset(r, r', x) by {
        EndsInSlice(text, x, y, lo + 1, hi);
      }
      var keep := IsWordEnd(text, x + lo);
      assert IsWordEnd(line, lo) == keep by {
        assert lo < |line| ==> line[lo] == text[x + lo];
        assert 0 < lo ==> line[lo - 1] == text[x + lo - 1];
      }
      OffsetStep(r, r', lo, x, keep);
    }
  }

  /** The words of a slice cut at word boundaries, as positions in the whole text. */
  lemma SliceStarts(text: string, line: string, x: nat, y: nat, run: seq<nat>)
    requires x <= y <= |text| && (x == 0 || text[x - 1] == ' ') && line == text[x..y]
    requires run == StartsIn(text, x, y)
    ensures Offset(WordStarts(line), run, x)
  {
    StartsInSlice(text, x, y, 0, y - x);
  }

  lemma SliceEnds(text: string, line: string, x: nat, y: nat, run: seq<nat>)
    requires x <= y <= |text| && (x == 0 || text[x - 1] == ' ') && (y == |text| || text[y] == ' ')
    requires line == text[x..y] && run == EndsIn(text, x, y + 1)
    ensures Offset(WordEnds(line), run, x)
  {
    EndsInSlice(text, x, y, 0, y - x + 1);
  }

  /** Every element of `s` lies in `lo..hi`. */
  predicate InRange(s: seq<nat>, lo: nat, hi: nat) {
    forall k :: 0 <= k < |s| ==> lo <= s[k] < hi
  }

  lemma StartsInRange(text: string, lo: nat, hi: nat)
    ensures InRange(StartsIn(text, lo, hi), lo, hi)
  {
  }

  lemma EndsInRange(text: string, lo: nat, hi: nat)
    ensures InRange(EndsIn(text, lo, hi), lo, hi)
  {
  }

  /** In `pre + post`, with `pre` below `x` and `post` at or above it, `pre` is exactly the first `c` elements. */
  lemma SplitCount(s: seq<nat>, pre: seq<nat>, post: seq<nat>, x: nat, c: nat)
    requires s == pre + post
    requires forall k :: 0 <= k < |pre| ==> pre[k] < x
    requires forall k :: 0 <= k < |post| ==> x <= post[k]
    requires c <= |s| && (0 < c ==> s[c - 1] < x) && (c < |s| ==> x <= s[c])
    ensures |pre| == c
  {
  }

  /** In `pre + mid + post`, split at `x` and `y`, the middle part is the run `a..b` of the whole. */
  lemma RunOfSplit(s: seq<nat>, pre: seq<nat>, mid: seq<nat>, post: seq<nat>, x: nat, y: nat, z: nat, a: nat, b: nat)
    requires s == pre + mid + post
    requires InRange(pre, 0, x) && InRange(mid, x, y) && InRange(post, y, z)
    requires a <= b < |s| && x <= s[a] && s[b] < y
    requires (0 < a ==> s[a - 1] < x) && (b + 1 < |s| ==> y <= s[b + 1])
    ensures mid == s[a..b + 1]
  {
    assert s == pre + (mid + post);
    SplitCount(s, pre, mid + post, x, a);
    SplitCount(s, pre + mid, post, y, b + 1);
  }

  /** The run's span is cut out of the text at spaces. */
  lemma RunEdges(text: string, a: nat, b: nat)
    requires a <= b < WordCount(text)
    ensures var S, E := WordStarts(text), WordEnds(text);
      b < |E| && (S[a] == 0 || text[S[a] - 1] == ' ') && (E[b] == |text| || text[E[b]] == ' ')
  {
    var S, E := WordStarts(text), WordEnds(text);
    SegmentBounds(text, a, b);
    assert IsWordStart(text, S[a]) && IsWordEnd(text, E[b]);
  }

  /** The word starts of `text` lying in the run's span are exactly the run's starts. */
  lemma StartsOfRun(text: string, a: nat, b: nat)
    requires a <= b < WordCount(text)
    ensures var S, E := WordStarts(text), WordEnds(text);
      b < |E| && StartsIn(text, S[a], E[b]) == S[a..b + 1]
  {
    var S, E := WordStarts(text), WordEnds(text);
    RunBounds(text, a, b);
    StartsBetween(text, S, S[a], E[b], a, b);
  }

  /** The starts in `x..y` are the run `a..b` of `S` when `x` and `y` separate that run from its neighbours. */
  lemma StartsBetween(text: string, S: seq<nat>, x: nat, y: nat, a: nat, b: nat)
    requires S == WordStarts(text) && x <= y <= |text|
    requires a <= b < |S| && x <= S[a] && S[b] < y
    requires (0 < a ==> S[a - 1] < x) && (b + 1 < |S| ==> y <= S[b + 1])
    ensures StartsIn(text, x, y) == S[a..b + 1]
  {
    StartsInSplit3(text, x, y);
    StartsInRange(text, 0, x);
    StartsInRange(text, x, y);
    StartsInRange(text, y, |text|);
    RunOfSplit(S, StartsIn(text, 0, x), StartsIn(text, x, y), StartsIn(text, y, |text|), x, y, |text|, a, b);
  }

  /** The word ends of `text` lying in the run's span are exactly the run's ends. */
  lemma EndsOfRun(text: string, a: nat, b: nat)
    requires a <= b < WordCount(text)
    ensures var S, E := WordStarts(text), WordEnds(text);
      b < |E| && EndsIn(text, S[a], E[b] + 1) == E[a..b + 1]
  {
    var S, E := WordStarts(text), WordEnds(text);
    RunBounds(text, a, b);
    EndsBetween(text, E, S[a], E[b] + 1, a, b);
  }

  /** The ends in `x..y` are the run `a..b` of `E` when `x` and `y` separate that run from its neighbours. */
  lemma EndsBetween(text: string, E: seq<nat>, x: nat, y: nat, a: nat, b: nat)
    requires E == WordEnds(text) && x <= y <= |text| + 1
    requires a <= b < |E| && x <= E[a] && E[b] < y
    requires (0 < a ==> E[a - 1] < x) && (b + 1 < |E| ==> y <= E[b + 1])
    ensures EndsIn(text, x, y) == E[a..b + 1]
  {
    EndsInSplit3(text, x, y);
    EndsInRange(text, 0, x);
    EndsInRange(text, x, y);
    EndsInRange(text, y, |text| + 1);
    RunOfSplit(E, EndsIn(text, 0, x), EndsIn(text, x, y), EndsIn(text, y, |text| + 1), x, y, |text| + 1, a, b);
  }

  /** The words of a line, as positions in the text, are the run of words it was cut from. */
  lemma StartsOfSegment(text: string, a: nat, b: nat)
    requires a <= b < WordCount(text)
    ensures var S := WordStarts(text);
      Offset(WordStarts(Segment(text, a, b)), S[a..b + 1], S[a])
  {
    var S, E := WordStarts(text), WordEnds(text);
    RunEdges(text, a, b);
    StartsOfRun(text, a, b);
    SegmentBounds(text, a, b);
    SliceStarts(text, Segment(text, a, b), S[a], E[b], S[a..b + 1]);
  }

  lemma EndsOfSegment(text: string, a: nat, b: nat)
    requires a <= b < WordCount(text)
    ensures var E := WordEnds(text);
      b < |E| && Offset(WordEnds(Segment(text, a, b)), E[a..b + 1], WordStarts(text)[a])
  {
    var S, E := WordStarts(text), WordEnds(text);
    RunEdges(text, a, b);
    EndsOfRun(text, a, b);
    SegmentBounds(text, a, b);
    SliceEnds(text, Segment(text, a, b), S[a], E[b], E[a..b + 1]);
  }

  /** A prefix run of the line's own words is the matching run of the text's words. */
  lemma SegmentOfSegment(text: string, a: nat, b: nat, i: nat)
    requires a <= b < WordCount(text) && i <= b - a
    ensures WordCount(Segment(text, a, b)) == b - a + 1
    ensures Segment(Segment(text, a, b), 0, i) == Segment(text, a, a + i)
  {
    StartsOfSegment(text, a, b);
    EndsOfSegment(text, a, b);
    var line := Segment(text, a, b);
    SegmentBounds(line, 0, i);
    SegmentBounds(text, a, a + i);
    SegmentBounds(text, a, b);
  }

  /** The greedy run `a..b`, taken as a text of its own, is one greedy run of all its words. */
  lemma RunStaysGreedy(text: string, measure: string -> nat, width: nat, a: nat, b: nat)
    requires a <= b < WordCount(text) && Greedy(text, measure, width, a, b)
    ensures var line := Segment(text, a, b);
      WordCount(line) == b - a + 1 && Greedy(line, measure, width, 0, b - a)
  {
    var line := Segment(text, a, b);
    SegmentOfSegment(text, a, b, 0);
    forall i | 0 <= i <= b - a
      ensures Fits(line, measure, width, 0, i) <==> Fits(text, measure, width, a, a + i)
    {
      SegmentOfSegment(text, a, b, i);
    }
    if b == a && !Fits(text, measure, width, a, a) {
      assert !Fits(line, measure, width, 0, 0);
    } else {
      assert forall i :: a <= i <= b ==> Fits(text, measure, width, a, i);
    }
  }

  /** A text whose words form one greedy run is wrapped into that one run. */
  lemma SingleRun(line: string, measure: string -> nat, width: nat)
    requires 0 < WordCount(line) && Greedy(line, measure, width, 0, WordCount(line) - 1)
    ensures LineRanges(line, measure, width) == [(0, WordCount(line) - 1)]
  {
    var j := LastWordOfLine(line, measure, width, 0);
    GreedyUnique(line, measure, width, 0, j, WordCount(line) - 1);
  }

  /** The greedy run `a..b`, wrapped on its own, is a single line. */
  lemma RewrapRun(text: string, measure: string -> nat, width: nat, a: nat, b: nat)
    requires a <= b < WordCount(text) && Greedy(text, measure, width, a, b)
    ensures SplitText(Segment(text, a, b), measure, width) == [Segment(text, a, b)]
  {
    var line := Segment(text, a, b);
    RunStaysGreedy(text, measure, width, a, b);
    SingleRun(line, measure, width);
    SegmentOfSegment(text, a, b, b - a);
  }

  /**
    Wrapping a line of the output again, at the same width and with the same
    measure, yields exactly that line.
  */
  lemma SplitTextIdempotent(text: string, measure: string -> nat, width: nat, k: nat)
    requires k < |SplitText(text, measure, width)|
    ensures var line := SplitText(text, measure, width)[k];
      SplitText(line, measure, width) == [line]
  {
    var g := LineRanges(text, measure, width);
    RewrapRun(text, measure, width, g[k].0, g[k].1);
  }
}
