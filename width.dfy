/**
 * Display-width arithmetic of the contact table (app.py, get_display_width
 * and pad_to_width). A character counts two cells when the Unicode East Asian
 * Width property classifies it as Wide ("W") or Fullwidth ("F"), one cell
 * otherwise. The Unicode table itself is not part of this model: it is a
 * parameter, constrained only to classify the space and the hyphen-minus as
 * narrow, as Unicode does.
 */
module Width {

  /** A stand-in for `unicodedata.east_asian_width(c) in 'WF'`. */
  type WideTable = isWide: char -> bool | !isWide(' ') && !isWide('-')
    witness (c: char) => false

  function Max(a: int, b: int): int {
    if a < b then b else a
  }

  /** Every character of `s` is `c`. */
  predicate AllChar(s: string, c: char) {
    forall k :: 0 <= k < |s| ==> s[k] == c
  }

  /** Python's `c * n` for a one-character string: the empty string when `n` is
      zero or negative. */
  function Repeat(c: char, n: int): (r: string)
    ensures |r| == Max(0, n)
    ensures AllChar(r, c)
  {
    seq(Max(0, n), _ => c)
  }

  function CharWidth(isWide: WideTable, c: char): (w: nat)
    ensures w == 1 || w == 2
    ensures w == 2 <==> isWide(c)
  {
    if isWide(c) then 2 else 1
  }

  /** get_display_width: the number of cells `text` occupies. */
  function DisplayWidth(isWide: WideTable, text: string): (w: nat)
    ensures |text| <= w <= 2 * |text|
  {
    if text == [] then 0 else CharWidth(isWide, text[0]) + DisplayWidth(isWide, text[1..])
  }

  /** No character is wide. */
  predicate AllNarrow(isWide: WideTable, text: string) {
    forall k :: 0 <= k < |text| ==> !isWide(text[k])
  }

  /** The width equals the number of characters exactly when no character is
      wide. */
  lemma {:induction false} WidthIsLengthIffNarrow(isWide: WideTable, text: string)
    ensures DisplayWidth(isWide, text) == |text| <==> AllNarrow(isWide, text)
  {
    if text != [] {
      WidthIsLengthIffNarrow(isWide, text[1..]);
      if AllNarrow(isWide, text) {
        assert AllNarrow(isWide, text[1..]) by {
          forall k | 0 <= k < |text| - 1 ensures !isWide(text[1..][k]) {
            assert text[1..][k] == text[k + 1];
          }
        }
      } else if !isWide(text[0]) {
        assert !AllNarrow(isWide, text[1..]) by {
          var k :| 0 <= k < |text| && isWide(text[k]);
          assert text[1..][k - 1] == text[k];
        }
      }
    }
  }

  /** Width is additive over concatenation. */
  lemma {:induction false} WidthAppend(isWide: WideTable, a: string, b: string)
    ensures DisplayWidth(isWide, a + b) == DisplayWidth(isWide, a) + DisplayWidth(isWide, b)
  {
    if a != [] {
      assert (a + b)[1..] == a[1..] + b;
      WidthAppend(isWide, a[1..], b);
    } else {
      assert a + b == b;
    }
  }

  /** A run of one narrow character is as wide as it is long. */
  lemma {:induction false} NarrowRunWidth(isWide: WideTable, s: string, c: char)
    requires AllChar(s, c) && !isWide(c)
    ensures DisplayWidth(isWide, s) == |s|
  {
    if s != [] {
      NarrowRunWidth(isWide, s[1..], c);
    }
  }

  /** pad_to_width: `text` followed by as many spaces as it lacks to reach
      `width` cells; `' ' * n` is empty for negative `n`, so nothing is ever cut. */
  function PadToWidth(isWide: WideTable, text: string, width: int): (r: string)
    ensures |r| == |text| + Max(0, width - DisplayWidth(isWide, text))
    ensures r[..|text|] == text
    ensures forall k :: |text| <= k < |r| ==> r[k] == ' '
    ensures DisplayWidth(isWide, r) == Max(width, DisplayWidth(isWide, text))
  {
    var padding := Repeat(' ', width - DisplayWidth(isWide, text));
    WidthAppend(isWide, text, padding);
    NarrowRunWidth(isWide, padding, ' ');
    assert (text + padding)[..|text|] == text;
    text + padding
  }

  /** A text already at least `width` cells wide comes back unchanged. */
  lemma PadNeverTruncates(isWide: WideTable, text: string, width: int)
    requires DisplayWidth(isWide, text) >= width
    ensures PadToWidth(isWide, text, width) == text
  {
    var r := PadToWidth(isWide, text, width);
    assert r == r[..|text|];
  }
}
