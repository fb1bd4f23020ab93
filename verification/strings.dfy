/** Character and prefix helpers shared by the question-file loaders. */
module Strings {

  /** `s` starts with `p` (Rust's `str::starts_with` / a successful `strip_prefix`). */
  predicate HasPrefix(s: string, p: string) {
    |p| <= |s| && s[..|p|] == p
  }

  /** The Unicode White_Space property, which both `char::is_whitespace` and the regex class `\s` use. */
  predicate IsWhitespace(c: char) {
    var n := c as int;
    (0x09 <= n <= 0x0D) || n == 0x20 || n == 0x85 || n == 0xA0 || n == 0x1680
    || (0x2000 <= n <= 0x200A) || n == 0x2028 || n == 0x2029 || n == 0x202F
    || n == 0x205F || n == 0x3000
  }

  /** `str::trim_start`: drops the leading whitespace. */
  function TrimStart(s: string): (r: string)
    ensures |r| <= |s|
  {
    if s == [] || !IsWhitespace(s[0]) then s else TrimStart(s[1..])
  }

  /** What `TrimStart` leaves is a suffix that starts with no whitespace, and what it drops is all whitespace. */
  lemma {:induction false} TrimStartDrops(s: string)
    ensures var r := TrimStart(s);
      && r == s[|s| - |r|..]
      && (r == [] || !IsWhitespace(r[0]))
      && forall k :: 0 <= k < |s| - |r| ==> IsWhitespace(s[k])
  {
    if s != [] && IsWhitespace(s[0]) {
      TrimStartDrops(s[1..]);
      assert forall k :: 1 <= k < |s| ==> s[k] == s[1..][k - 1];
    }
  }

  /** A line whose first non-whitespace character is `#`; the loaders skip such lines. */
  predicate IsComment(line: string) {
    HasPrefix(TrimStart(line), "#")
  }

  /** Indentation by spaces in front of `t` makes no difference once trimmed. */
  lemma {:induction false} TrimStartSkips(w: string, t: string)
    requires forall k :: 0 <= k < |w| ==> w[k] == ' '
    ensures TrimStart(w + t) == TrimStart(t)
  {
    if w != [] {
      assert (w + t)[1..] == w[1..] + t;
      TrimStartSkips(w[1..], t);
    } else {
      assert w + t == t;
    }
  }
}
