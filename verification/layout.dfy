/**
  The screen layout: where the four clue tiles and the answer bar go for a
  given window size (`Metrics::from_window_dimensions`, src/main.rs:394-428).

  The program computes in `u32`. A build with overflow checks panics on an
  overflowing or underflowing operation, and `assert_eq!` panics when the
  tiles, gaps and margins do not add up to the width; `FromWindowDimensions`
  answers `None` exactly where the program would panic. The operations that
  cannot overflow for a `u32` width are not checked; `Framed` bounds every
  field by `U32_MAX` instead.
*/
module Layout {
  import opened Options

  const U32_MAX: nat := 0xFFFF_FFFF
  const U16_MODULUS: nat := 0x1_0000

  /** Pixel sizes and positions; pairs are `(x, y)` or `(width, height)`. */
  datatype Metrics = Metrics(
    tileSize: (nat, nat),
    tile0Pos: (nat, nat),
    tileXStride: nat,
    padding: nat,
    answerSize: (nat, nat),
    answerPos: (nat, nat),
    textSize: nat)

  /** The width of one tile: 8/37 of the window, rounded down. */
  function TileWidth(width: nat): nat {
    width * 8 / 37
  }

  /**
    The width the four tiles leave over for the three gaps and two margins.
    With `s` the remainder of `8 * width` by 37, it is `(5 * width + 4 * s) / 37`.
  */
  function Leftover(width: nat): (rem: nat)
    ensures 37 * rem == 5 * width + 4 * (width * 8 % 37)
  {
    var t, s := width * 8 / 37, width * 8 % 37;
    assert width * 8 == 37 * t + s;
    width - 4 * t
  }

  /** The gap for a leftover `rem`: a fifth of it, plus one when that makes the rest even. */
  function Gap(rem: nat): nat {
    rem / 5 + (rem - rem / 5) % 2
  }

  /** The margin for a leftover `rem`: half of what three gaps leave (negative where they do not fit). */
  function Side(rem: nat): int {
    (rem - 3 * Gap(rem)) / 2
  }

  /** The gap between tiles for a window `width` pixels wide. */
  function TileSpacing(width: nat): nat {
    Gap(Leftover(width))
  }

  /** The side margin for a window `width` pixels wide. */
  function Margin(width: nat): int {
    Side(Leftover(width))
  }

  /** Tiles are 4:3, rounded down. */
  function TileHeight(width: nat): nat {
    TileWidth(width) * 3 / 4
  }

  /** The answer bar is half as tall as a tile, rounded down. */
  function AnswerHeight(width: nat): nat {
    TileHeight(width) / 2
  }

  /**
    The font size: two fifths of the answer bar, cut to 16 bits by `as u16`.
    Below the cut it is the exact quotient.
  */
  function TextSize(answerHeight: nat): (size: nat)
    ensures size < U16_MODULUS
    ensures 2 * answerHeight < 5 * U16_MODULUS ==> 5 * size <= 2 * answerHeight < 5 * size + 5
  {
    var x := answerHeight * 2 / 5;
    assert 5 * x <= 2 * answerHeight < 5 * x + 5;
    x % U16_MODULUS
  }

  /**
    The geometry the layout promises: four tiles, three equal gaps and two
    equal margins fill the width; the answer bar spans the tile row and sits one
    margin above the bottom edge, one gap below the tiles; tiles are 4:3 and the
    bar half a tile tall; padding is a sixth of a tile; the font is two fifths
    of the bar (cut to 16 bits); and every field fits in a `u32`.
  */
  predicate Framed(m: Metrics, width: nat, height: nat) {
    var tileWidth, tileHeight := m.tileSize.0, m.tileSize.1;
    var margin, answerHeight := m.answerPos.0, m.answerSize.1;
    && tileWidth <= m.tileXStride
    && var spacing := m.tileXStride - tileWidth;
    && 4 * tileWidth + 3 * spacing + 2 * margin == width
    && m.answerSize.0 == 4 * tileWidth + 3 * spacing
    && m.tile0Pos.0 == margin
    && m.answerPos.1 + answerHeight + margin == height
    && m.tile0Pos.1 + tileHeight + spacing == m.answerPos.1
    && 37 * tileWidth <= 8 * width < 37 * tileWidth + 37
    && 4 * tileHeight <= 3 * tileWidth < 4 * tileHeight + 4
    && 2 * answerHeight <= tileHeight < 2 * answerHeight + 2
    && 6 * m.padding <= tileHeight < 6 * m.padding + 6
    && m.textSize < U16_MODULUS
    && (2 * answerHeight < 5 * U16_MODULUS ==> 5 * m.textSize <= 2 * answerHeight < 5 * m.textSize + 5)
    && m.tileSize.0 <= U32_MAX && m.tileSize.1 <= U32_MAX && m.tile0Pos.1 <= U32_MAX
    && m.tileXStride <= U32_MAX && m.padding <= U32_MAX && m.answerSize.0 <= U32_MAX
    && m.answerSize.1 <= U32_MAX && m.answerPos.0 <= U32_MAX && m.answerPos.1 <= U32_MAX
  }

  /**
    `Metrics::from_window_dimensions`: `None` where the program panics, on
    `width * 8` overflowing, on one of the subtractions underflowing, or on
    its `assert_eq!` failing.
  */
  function FromWindowDimensions(width: nat, height: nat): (r: Option<Metrics>)
    requires width <= U32_MAX && height <= U32_MAX
    ensures r.Some? ==> r.value.tile0Pos.0 == r.value.answerPos.0 == Margin(width)
    ensures r.Some? ==> r.value.tileSize == (TileWidth(width), TileHeight(width))
    ensures r.Some? ==> r.value.tileXStride == TileWidth(width) + TileSpacing(width)
  {
    if width * 8 > U32_MAX then None
    else
      var tileWidth, rem, tileSpacing := TileWidth(width), Leftover(width), TileSpacing(width);
      if rem < tileSpacing * 3 then None
      else
        var margin := (rem - tileSpacing * 3) / 2;
        if tileWidth * 4 + tileSpacing * 3 + margin * 2 != width then None
        else
          var tileHeight := TileHeight(width);
          var answerWidth := 4 * tileWidth + 3 * tileSpacing;
          var answerHeight := AnswerHeight(width);
          var textSize := TextSize(answerHeight);
          // `height - margin - answer_height`, left to right
          if height < margin || height - margin < answerHeight then None
          else
            var answerY := height - margin - answerHeight;
            // `answer_ypos - tile_spacing - tile_height`, left to right
            if answerY < tileSpacing || answerY - tileSpacing < tileHeight then None
            else
              var tileY := answerY - tileSpacing - tileHeight;
              var padding := tileHeight / 6;
              Some(Metrics(
                tileSize := (tileWidth, tileHeight),
                tile0Pos := (margin, tileY),
                tileXStride := tileWidth + tileSpacing,
                padding := padding,
                answerSize := (answerWidth, answerHeight),
                answerPos := (margin, answerY),
                textSize := textSize))
  }

  /** Whenever the program does not panic, the layout it returns has the promised geometry. */
  lemma FromWindowDimensionsFramed(width: nat, height: nat)
    requires width <= U32_MAX && height <= U32_MAX && FromWindowDimensions(width, height).Some?
    ensures Framed(FromWindowDimensions(width, height).value, width, height)
  {
    var m := FromWindowDimensions(width, height).value;
    var w, t := m.tileSize.0, m.tileSize.1;
    assert 37 * w <= 8 * width < 37 * w + 37;
    assert 4 * t <= 3 * w < 4 * t + 4;
    assert 2 * m.answerSize.1 <= t < 2 * m.answerSize.1 + 2;
    assert 6 * m.padding <= t < 6 * m.padding + 6;
  }

  /**
    A leftover split as `5 * q + r`: the gap is `q` or `q + 1` and the
    margin within two of `q`, by the remainder `r`.
  */
  lemma Parts(rem: nat) returns (q: nat, r: nat)
    ensures rem == 5 * q + r && r < 5
    ensures r == 0 ==> Gap(rem) == q && Side(rem) == q
    ensures r == 1 ==> Gap(rem) == q + 1 && Side(rem) == q - 1
    ensures r == 2 ==> Gap(rem) == q && Side(rem) == q + 1
    ensures r == 3 ==> Gap(rem) == q + 1 && Side(rem) == q
    ensures r == 4 ==> Gap(rem) == q && Side(rem) == q + 2
  {
    q, r := rem / 5, rem % 5;
    assert rem - rem / 5 == 2 * (2 * q) + r;
  }

  /** The leftover is a single pixel exactly for windows 1 and 5 pixels wide. */
  lemma LeftoverIsOneIff(width: nat)
    ensures Leftover(width) == 1 <==> width == 1 || width == 5
  {
    var t, s := width * 8 / 37, width * 8 % 37;
    assert width * 8 == 37 * t + s;
    if Leftover(width) == 1 {
      assert width == 4 * t + 1;
      assert 5 * t + s == 8;
    }
  }

  /** The three gaps fit in the leftover unless it is a single pixel. */
  lemma SpacingFitsIff(width: nat)
    ensures 3 * TileSpacing(width) <= Leftover(width) <==> Leftover(width) != 1
  {
    var q, r := Parts(Leftover(width));
  }

  /** The margin and the gap are within two pixels of each other: both are "one part". */
  lemma MarginNearSpacing(width: nat)
    requires Leftover(width) != 1
    ensures -2 <= Margin(width) - TileSpacing(width) <= 2
  {
    var q, r := Parts(Leftover(width));
  }

  /**
    The `assert_eq!` at src/main.rs:407 cannot fail: once the gaps fit, what
    they leave is even, so the two margins take it exactly.
  */
  lemma LayoutAddsUp(width: nat)
    requires Leftover(width) != 1
    ensures 4 * TileWidth(width) + 3 * TileSpacing(width) + 2 * Margin(width) == width
  {
    var q, r := Parts(Leftover(width));
  }

  /**
    The layout exists exactly when `width * 8` fits in a `u32`, the window is
    not 1 or 5 pixels wide, and the window is tall enough for the bottom
    margin, the answer bar, one gap and a row of tiles.
  */
  lemma FromWindowDimensionsDefinedIff(width: nat, height: nat)
    requires width <= U32_MAX && height <= U32_MAX
    ensures FromWindowDimensions(width, height).Some? <==>
      && width * 8 <= U32_MAX
      && width != 1 && width != 5
      && Margin(width) + AnswerHeight(width) + TileSpacing(width) + TileHeight(width) <= height
  {
    LeftoverIsOneIff(width);
    SpacingFitsIff(width);
    if width * 8 <= U32_MAX && Leftover(width) != 1 {
      LayoutAddsUp(width);
    }
  }
}
