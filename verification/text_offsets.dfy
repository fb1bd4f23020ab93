/**
  Byte offsets in `split_text` (src/main.rs:472-508). The program slices its
  UTF-8 text at `m.end() - 1` for a word start and `m.start() + 1` for a word
  end, which are the offsets of the word's first and last characters only when
  those characters are one byte long. Rust panics when a `str` is sliced at an
  offset inside a character. `TextWrap` works on character indices, which is
  what the offsets are evidently meant to be; this module relates the two.
*/
module TextOffsets {
  import opened TextWrap

  /** `char::len_utf8`: the number of bytes UTF-8 spends on `c`. */
  function Utf8Len(c: char): (n: nat)
    ensures 1 <= n <= 4
    ensures n == 1 <==> c as int < 0x80
  {
    var v := c as int;
    if v < 0x80 then 1 else if v < 0x800 then 2 else if v < 0x1_0000 then 3 else 4
  }

  /** The byte offset of character `p` in the UTF-8 encoding of `text`. */
  function ByteOffset(text: string, p: nat): nat
    requires p <= |text|
  {
    if p == 0 then 0 else ByteOffset(text, p - 1) + Utf8Len(text[p - 1])
  }

  /** `str::is_char_boundary`: `b` is where some character of `text` starts, or the end. */
  ghost predicate IsCharBoundary(text: string, b: int) {
    exists p :: 0 <= p <= |text| && ByteOffset(text, p) == b
  }

  /** A word start as the program computes it: the end of the match, minus one byte. */
  function StartByteAsWritten(text: string, p: nat): int
    requires p < |text|
  {
    ByteOffset(text, p + 1) - 1
  }

  /** A word end as the program computes it: the start of the match, plus one byte. */
  function EndByteAsWritten(text: string, e: nat): int
    requires 0 < e <= |text|
  {
    ByteOffset(text, e - 1) + 1
  }

  /** A word start stepping back over the whole first character rather than one byte. */
  function StartByte(text: string, p: nat): (b: nat)
    requires p < |text|
    ensures b == ByteOffset(text, p) && IsCharBoundary(text, b)
  {
    ByteOffset(text, p + 1) - Utf8Len(text[p])
  }

  /** A word end stepping over the whole last character rather than one byte. */
  function EndByte(text: string, e: nat): (b: nat)
    requires 0 < e <= |text|
    ensures b == ByteOffset(text, e) && IsCharBoundary(text, b)
  {
    ByteOffset(text, e - 1) + Utf8Len(text[e - 1])
  }

  // ---------------------------------------------------------------------------
  // Lemmas

  /** Offsets grow with the index, by at least the width of each character passed. */
  lemma {:induction false} ByteOffsetGrows(text: string, p: nat, q: nat)
    requires p < q <= |text|
    ensures ByteOffset(text, p) + Utf8Len(text[p]) <= ByteOffset(text, q)
    decreases q
  {
    if p + 1 < q {
      ByteOffsetGrows(text, p, q - 1);
    }
  }

  /** An offset strictly inside character `p` is no character boundary. */
  lemma InsideNotBoundary(text: string, p: nat, b: int)
    requires p < |text| && ByteOffset(text, p) < b < ByteOffset(text, p + 1)
    ensures !IsCharBoundary(text, b)
  {
    forall q | 0 <= q <= |text|
      ensures ByteOffset(text, q) != b
    {
      if q < p {
        ByteOffsetGrows(text, q, p);
      } else if p + 1 < q {
        ByteOffsetGrows(text, p + 1, q);
      }
    }
  }

  /** The program's word start is a character boundary exactly when the word's first character is one byte. */
  lemma StartByteAsWrittenIff(text: string, p: nat)
    requires p < |text|
    ensures IsCharBoundary(text, StartByteAsWritten(text, p)) <==> Utf8Len(text[p]) == 1
  {
    if Utf8Len(text[p]) == 1 {
      assert ByteOffset(text, p) == StartByteAsWritten(text, p);
    } else {
      InsideNotBoundary(text, p, StartByteAsWritten(text, p));
    }
  }

  /** The program's word end is a character boundary exactly when the word's last character is one byte. */
  lemma EndByteAsWrittenIff(text: string, e: nat)
    requires 0 < e <= |text|
    ensures IsCharBoundary(text, EndByteAsWritten(text, e)) <==> Utf8Len(text[e - 1]) == 1
  {
    if Utf8Len(text[e - 1]) == 1 {
      assert ByteOffset(text, e) == EndByteAsWritten(text, e);
    } else {
      InsideNotBoundary(text, e - 1, EndByteAsWritten(text, e));
    }
  }

  /** Where the first and last characters are one byte, the correction changes nothing. */
  lemma CorrectionAgreesOnAscii(text: string, p: nat, e: nat)
    requires p < |text| && 0 < e <= |text|
    ensures StartByte(text, p) == StartByteAsWritten(text, p) <==> text[p] as int < 0x80
    ensures EndByte(text, e) == EndByteAsWritten(text, e) <==> text[e - 1] as int < 0x80
  {
  }

  /** The one-word text "café": its word end is cut inside the `é`, so slicing there panics. */
  lemma CafeEndsInsideCharacter()
    ensures IsWordEnd("café", 4)
    ensures !IsCharBoundary("café", EndByteAsWritten("café", 4))
  {
    EndByteAsWrittenIff("café", 4);
  }

  /** The one-word text "élan": its word start is cut inside the `é`. */
  lemma ElanStartsInsideCharacter()
    ensures IsWordStart("élan", 0)
    ensures !IsCharBoundary("élan", StartByteAsWritten("élan", 0))
  {
    StartByteAsWrittenIff("élan", 0);
  }

  /** The bytes of a slice `text[s..e]` are the bytes between the offsets of `s` and `e`. */
  lemma {:induction false} ByteOffsetSlice(text: string, s: nat, e: nat)
    requires s <= e <= |text|
    ensures ByteOffset(text, e) == ByteOffset(text, s) + ByteOffset(text[s..e], e - s)
    decreases e
  {
    if s < e {
      ByteOffsetSlice(text, s, e - 1);
      assert text[s..e - 1] == text[s..e][..e - 1 - s];
      SamePrefixSameOffset(text[s..e - 1], text[s..e], e - 1 - s);
    }
  }

  /** An offset depends only on the characters before it. */
  lemma {:induction false} SamePrefixSameOffset(a: string, b: string, p: nat)
    requires p <= |a| && p <= |b| && a[..p] == b[..p]
    ensures ByteOffset(a, p) == ByteOffset(b, p)
    decreases p
  {
    if p > 0 {
      assert a[..p - 1] == a[..p][..p - 1] && b[..p - 1] == b[..p][..p - 1];
      assert a[p - 1] == a[..p][p - 1];
      SamePrefixSameOffset(a, b, p - 1);
    }
  }

  /**
    With the corrected offsets, the bytes sliced out for the characters
    `text[s..e]` (a line of `split_text`, from a word start to a word end)
    are exactly those characters' bytes.
  */
  lemma CorrectedSliceBytes(text: string, s: nat, e: nat)
    requires s < e <= |text|
    ensures EndByte(text, e) - StartByte(text, s) == ByteOffset(text[s..e], e - s)
  {
    ByteOffsetSlice(text, s, e);
  }
}
