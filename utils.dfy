/**
 * Size banding and the fixed-width progress bar used by both renderers.
 *
 * Colours are values of an enumeration; how a terminal draws them is not
 * modelled. The bar takes its filled cell count as an integer: the rounding
 * of a floating-point percentage that produces it is not modelled.
 */
module Utils {
  /** The size thresholds, in bytes (decimal units). */
  const GB: nat := 1_000_000_000
  const MB100: nat := 100_000_000
  const MB10: nat := 10_000_000
  const MB1: nat := 1_000_000

  /** The thresholds in increasing order. */
  const Thresholds: seq<nat> := [MB1, MB10, MB100, GB]

  /** Width of the progress bar, in cells. */
  const BarWidth: nat := 20

  /** The two glyphs of the bar: a full block and a light shade. */
  const FullCell: char := '█'
  const EmptyCell: char := '░'

  /** The colours the interactive list draws an entry in. */
  datatype Color = Red | Yellow | Green | Cyan | White

  /** The colours the textual report paints a column in. */
  datatype AnsiColor = BrightRed | AnsiYellow | AnsiGreen | AnsiCyan | AnsiWhite

  /** A piece of text painted in one colour. */
  datatype Colored = Colored(text: string, color: AnsiColor)

  /** The number of thresholds in `ts` that `size` reaches: an independent
      statement of which band a size falls in, 0 (smallest) to 4. */
  function Reached(size: nat, ts: seq<nat>): (n: nat)
    ensures n <= |ts|
  {
    if ts == [] then 0 else (if size >= ts[0] then 1 else 0) + Reached(size, ts[1..])
  }

  function Band(size: nat): (b: nat)
    ensures b <= 4
  {
    Reached(size, Thresholds)
  }

  /** The position of a colour in the banding, White lowest, Red highest. */
  function Rank(c: Color): nat {
    match c
    case White => 0
    case Cyan => 1
    case Green => 2
    case Yellow => 3
    case Red => 4
  }

  /** The report colour that stands for the same band as a list colour. */
  function Ansi(c: Color): AnsiColor {
    match c
    case Red => BrightRed
    case Yellow => AnsiYellow
    case Green => AnsiGreen
    case Cyan => AnsiCyan
    case White => AnsiWhite
  }

  /** `get_color_for_size`: one colour per band, the band picked by the
      largest threshold the size reaches. */
  function ColorForSize(size: nat): (c: Color)
    ensures c == Red <==> size >= GB
    ensures c == Yellow <==> MB100 <= size < GB
    ensures c == Green <==> MB10 <= size < MB100
    ensures c == Cyan <==> MB1 <= size < MB10
    ensures c == White <==> size < MB1
  {
    if size >= GB then Red
    else if size >= MB100 then Yellow
    else if size >= MB10 then Green
    else if size >= MB1 then Cyan
    else White
  }

  /** `apply_color`: the text, unchanged, painted by the same bands. */
  function ApplyColor(text: string, size: nat): (r: Colored)
    ensures r.text == text
    ensures r.color == BrightRed <==> size >= GB
    ensures r.color == AnsiYellow <==> MB100 <= size < GB
    ensures r.color == AnsiGreen <==> MB10 <= size < MB100
    ensures r.color == AnsiCyan <==> MB1 <= size < MB10
    ensures r.color == AnsiWhite <==> size < MB1
  {
    if size >= GB then Colored(text, BrightRed)
    else if size >= MB100 then Colored(text, AnsiYellow)
    else if size >= MB10 then Colored(text, AnsiGreen)
    else if size >= MB1 then Colored(text, AnsiCyan)
    else Colored(text, AnsiWhite)
  }

  /** `colorize_line`: a whole line painted by its entry's size. */
  function ColorizeLine(line: string, size: nat): (r: Colored)
    ensures r.text == line && r.color == Ansi(ColorForSize(size))
  {
    ApplySameBands(line, size);
    ApplyColor(line, size)
  }

  /** The two colourings agree band for band. */
  lemma ApplySameBands(text: string, size: nat)
    ensures ApplyColor(text, size).color == Ansi(ColorForSize(size))
  {
  }

  /** The colour's rank is exactly the number of thresholds reached. */
  lemma ColorIsBand(size: nat)
    ensures Rank(ColorForSize(size)) == Band(size)
  {
    var t := Thresholds;
    assert t[1..] == [MB10, MB100, GB] && t[1..][1..] == [MB100, GB] && t[1..][1..][1..] == [GB];
    assert Reached(size, [GB]) == (if size >= GB then 1 else 0) + Reached(size, []);
    assert Reached(size, [MB100, GB]) == (if size >= MB100 then 1 else 0) + Reached(size, [GB]);
    assert Reached(size, [MB10, MB100, GB]) == (if size >= MB10 then 1 else 0) + Reached(size, [MB100, GB]);
  }

  lemma {:induction false} ReachedMonotone(a: nat, b: nat, ts: seq<nat>)
    requires a <= b
    ensures Reached(a, ts) <= Reached(b, ts)
    decreases |ts|
  {
    if ts != [] {
      ReachedMonotone(a, b, ts[1..]);
    }
  }

  /** A larger size never gets a lower band. */
  lemma ColorMonotone(a: nat, b: nat)
    requires a <= b
    ensures Rank(ColorForSize(a)) <= Rank(ColorForSize(b))
  {
    ColorIsBand(a);
    ColorIsBand(b);
    ReachedMonotone(a, b, Thresholds);
  }

  /** `c` repeated `n` times. */
  function Repeat(c: char, n: nat): (r: string)
    ensures |r| == n
    ensures forall i :: 0 <= i < n ==> r[i] == c
  {
    if n == 0 then [] else [c] + Repeat(c, n - 1)
  }

  function Min(a: nat, b: nat): nat {
    if a <= b then a else b
  }

  /** `create_progress_bar` with its filled count given: the count is clamped
      to the width, then that many full cells are followed by empty ones. */
  function ProgressBar(filled: nat): (bar: string)
    ensures |bar| == BarWidth
    ensures forall i :: 0 <= i < BarWidth ==>
      bar[i] == if i < Min(filled, BarWidth) then FullCell else EmptyCell
  {
    var f := Min(filled, BarWidth);
    Repeat(FullCell, f) + Repeat(EmptyCell, BarWidth - f)
  }

  /** The number of occurrences of `c` in `s`. */
  function Count(s: string, c: char): (n: nat)
    ensures n <= |s|
  {
    if s == [] then 0 else (if s[0] == c then 1 else 0) + Count(s[1..], c)
  }

  lemma {:induction false} CountRuns(s: string, k: nat)
    requires k <= |s|
    requires forall i :: 0 <= i < |s| ==> s[i] == if i < k then FullCell else EmptyCell
    ensures Count(s, FullCell) == k && Count(s, EmptyCell) == |s| - k
    decreases |s|
  {
    if s != [] {
      CountRuns(s[1..], if k == 0 then 0 else k - 1);
    }
  }

  /** Reading a bar back: it shows the clamped filled count in full cells
      and the remainder of the width in empty cells. */
  lemma ProgressBarCounts(filled: nat)
    ensures Count(ProgressBar(filled), FullCell) == Min(filled, BarWidth)
    ensures Count(ProgressBar(filled), EmptyCell) == BarWidth - Min(filled, BarWidth)
  {
    CountRuns(ProgressBar(filled), Min(filled, BarWidth));
  }
}
