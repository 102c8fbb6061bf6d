/**
 The text-layout pipeline of the cowsay lookup plugin: wrapping the input
 into fixed-width chunks, framing the chunks in a speech bubble, indenting
 the fixed cow figure under it, and putting the two together while reporting
 the total width.
 */
module Lookup {
  import opened Text

  /** Default chunk width of the wrapper, the only one the renderer uses. */
  const MaxWidth: nat := 49

  /** The exceptions the plugins can raise, one constructor each. */
  datatype Error =
    | EmptyMax        // `max()` of an empty list (ValueError)
    | ZeroStep        // `range()` with a step of 0 (ValueError)
    | NothingToSay    // 'Pass something meaningful to cowsay'
    | SysinfoNotList  // 'sysinfo should be a list'
    | NoTerm          // `terms[0]` of an empty term list (IndexError)

  datatype Result<T> = Success(value: T) | Failure(error: Error)

  /** What `draw` returns: the total width and the rendered lines. */
  datatype Drawing = Drawing(width: int, lines: seq<string>)

  /** True iff no string of `xs` contains `c`. */
  predicate Avoids(xs: seq<string>, c: char) {
    forall k :: 0 <= k < |xs| ==> c !in xs[k]
  }

  /* ---------------------------------------------------------------------- */
  /* Wrapping                                                                */
  /* ---------------------------------------------------------------------- */

  /** The number of `width`-wide pieces needed to cover `n` characters. */
  function CeilDiv(n: nat, width: nat): (c: nat)
    requires width > 0
  {
    if n == 0 then 0 else if n <= width then 1 else 1 + CeilDiv(n - width, width)
  }

  /** `CeilDiv` is the ceiling of the quotient: the least count of pieces
      whose total width reaches `n`. */
  lemma {:induction false} CeilDivBounds(n: nat, width: nat)
    requires width > 0
    ensures var c := CeilDiv(n, width);
            (c - 1) * width < n <= c * width
    decreases n
  {
    var c := CeilDiv(n, width);
    if n == 0 {
    } else if n <= width {
      assert width <= n + width - 1 < 2 * width;
    } else {
      CeilDivBounds(n - width, width);
      var c' := CeilDiv(n - width, width);
      assert c == c' + 1;
      assert c * width == c' * width + width;
    }
  }

  /** The chunks `line[i:i+width]` for `i` in `range(0, len(line), width)`.
      There are ceil(|line| / width) of them (the fewest whose total width
      covers the line), none is empty, all but the last
      are exactly `width` long; `ChunksConcat` shows they spell `line`. */
  function Chunks(line: string, width: nat): (r: seq<string>)
    requires width > 0
    ensures |r| == CeilDiv(|line|, width)
    ensures forall k :: 0 <= k < |r| ==> 0 < |r[k]| <= width
    ensures forall k :: 0 <= k < |r| - 1 ==> |r[k]| == width
    ensures forall c :: c !in line ==> Avoids(r, c)
    decreases |line|
  {
    if |line| == 0 then []
    else if |line| <= width then
      [line]
    else
      var rest := Chunks(line[width..], width);
      var r := [line[..width]] + rest;
      assert r[1..] == rest;
      assert forall k :: 1 <= k < |r| ==> r[k] == rest[k - 1];
      assert forall c :: c in line[..width] ==> c in line;
      assert forall c :: c in line[width..] ==> c in line;
      r
  }

  /** The chunks spell the line: concatenated, they give it back. */
  lemma {:induction false} ChunksConcat(line: string, width: nat)
    requires width > 0
    ensures Concat(Chunks(line, width)) == line
    decreases |line|
  {
    if 0 < |line| <= width {
      assert Concat([line]) == line + Concat([]);
    } else if |line| > width {
      var r := Chunks(line, width);
      assert r[1..] == Chunks(line[width..], width);
      ChunksConcat(line[width..], width);
      assert line == line[..width] + line[width..];
    }
  }

  /** The first chunk and the chunks of the remainder. */
  lemma ChunksStep(s: string, width: nat)
    requires width > 0 && |s| > 0
    ensures Chunks(s, width) == [s[..Min(width, |s|)]] + Chunks(s[Min(width, |s|)..], width)
  {
    if |s| <= width {
      assert s[..|s|] == s;
      assert s[|s|..] == "";
    }
  }

  lemma SliceOfSuffix(s: string, d: nat, a: nat, b: nat)
    requires d <= |s| && a <= b <= |s| - d
    ensures s[d..][a..b] == s[a + d..b + d]
  {
  }

  /** Chunk `k` is the slice `line[k*width : k*width + width]`, cut short at
      the end of the line, exactly as the slice comprehension builds it. */
  lemma {:induction false} ChunkSlice(line: string, width: nat, k: nat)
    requires width > 0 && k < |Chunks(line, width)|
    ensures k * width < |line|
    ensures Chunks(line, width)[k] == line[k * width .. Min(k * width + width, |line|)]
    decreases k
  {
    if k == 0 {
      ChunkFirst(line, width);
    } else {
      ChunksTail(line, width);
      ChunkSlice(line[width..], width, k - 1);
      MulStep(k, width);
      ChunkShift(line, width, k - 1, (k - 1) * width, k * width);
    }
  }

  lemma ChunkFirst(line: string, width: nat)
    requires width > 0 && |Chunks(line, width)| > 0
    ensures 0 < |line|
    ensures Chunks(line, width)[0] == line[..Min(width, |line|)]
  {
    ChunksStep(line, width);
  }

  lemma ChunksTail(line: string, width: nat)
    requires width > 0 && |Chunks(line, width)| > 1
    ensures width < |line|
    ensures |Chunks(line[width..], width)| == |Chunks(line, width)| - 1
  {
  }

  lemma MulStep(k: nat, width: nat)
    requires k > 0
    ensures k * width == (k - 1) * width + width
  {
  }

  /** Chunk `j + 1` of a line is chunk `j` of the line past its first chunk,
      so the slice it is moves `width` characters to the right. */
  lemma ChunkShift(line: string, width: nat, j: nat, a: nat, o: nat)
    requires width > 0 && |line| > width && j + 1 < |Chunks(line, width)|
    requires a < |line| - width && o == a + width
    requires Chunks(line[width..], width)[j] == line[width..][a..Min(a + width, |line| - width)]
    ensures o < |line|
    ensures Chunks(line, width)[j + 1] == line[o..Min(o + width, |line|)]
  {
    ChunksStep(line, width);
    assert Chunks(line, width)[j + 1] == Chunks(line[width..], width)[j];
    ShiftSlice(line, width, a, o);
  }

  /** A slice of the line past its first `width` characters, seen from the
      start of the line. */
  lemma ShiftSlice(line: string, width: nat, a: nat, o: nat)
    requires width < |line| && a < |line| - width && o == a + width
    ensures line[width..][a..Min(a + width, |line| - width)] == line[o..Min(o + width, |line|)]
  {
    SliceOfSuffix(line, width, a, Min(a + width, |line| - width));
  }

  /** `wrap_lines(lines, width)`: the chunks of every line, line after line.
      No chunk is empty or wider than `width`, nothing is lost or reordered,
      and the result is empty exactly when every input line is empty. */
  function WrapLines(lines: seq<string>, width: nat): (r: seq<string>)
    requires width > 0
    ensures forall k :: 0 <= k < |r| ==> 0 < |r[k]| <= width
    ensures |r| == 0 <==> forall k :: 0 <= k < |lines| ==> lines[k] == ""
  {
    if |lines| == 0 then []
    else
      var first := Chunks(lines[0], width);
      var rest := WrapLines(lines[1..], width);
      assert forall k :: 1 <= k < |lines| ==> lines[k] == lines[1..][k - 1];
      assert |first| == 0 <==> lines[0] == "";
      first + rest
  }

  /** Wrapping loses and adds nothing: the chunks spell the lines, in
      order. */
  lemma {:induction false} WrapLinesConcat(lines: seq<string>, width: nat)
    requires width > 0
    ensures Concat(WrapLines(lines, width)) == Concat(lines)
    decreases |lines|
  {
    if |lines| > 0 {
      var first := Chunks(lines[0], width);
      var rest := WrapLines(lines[1..], width);
      WrapLinesConcat(lines[1..], width);
      ChunksConcat(lines[0], width);
      ConcatAppend(first, rest);
    }
  }

  /** A character absent from every line is absent from every chunk. */
  lemma {:induction false} WrapLinesAvoids(lines: seq<string>, width: nat, c: char)
    requires width > 0 && Avoids(lines, c)
    ensures Avoids(WrapLines(lines, width), c)
    decreases |lines|
  {
    if |lines| > 0 {
      assert forall k :: 1 <= k < |lines| ==> lines[k] == lines[1..][k - 1];
      WrapLinesAvoids(lines[1..], width, c);
      var first := Chunks(lines[0], width);
      var rest := WrapLines(lines[1..], width);
      assert Avoids(first, c);
      assert forall k :: |first| <= k < |first + rest| ==> (first + rest)[k] == rest[k - |first|];
    }
  }

  /** Wrapping works line by line: it maps concatenation to concatenation,
      so the chunks keep the order of the lines they come from. */
  lemma {:induction false} WrapLinesAppend(xs: seq<string>, ys: seq<string>, width: nat)
    requires width > 0
    ensures WrapLines(xs + ys, width) == WrapLines(xs, width) + WrapLines(ys, width)
    decreases |xs|
  {
    if |xs| == 0 {
      assert xs + ys == ys;
    } else {
      assert (xs + ys)[1..] == xs[1..] + ys;
      WrapLinesAppend(xs[1..], ys, width);
    }
  }

  /** A single line wraps into exactly its own chunks. */
  lemma WrapLinesSingle(line: string, width: nat)
    requires width > 0
    ensures WrapLines([line], width) == Chunks(line, width)
  {
    assert [line][1..] == [];
  }

  /** Lines that are non-empty and already short enough pass through
      unchanged: wrapping is the identity on them. */
  lemma {:induction false} WrapLinesShort(lines: seq<string>, width: nat)
    requires width > 0
    requires forall k :: 0 <= k < |lines| ==> 0 < |lines[k]| <= width
    ensures WrapLines(lines, width) == lines
    decreases |lines|
  {
    if |lines| > 0 {
      assert forall k :: 1 <= k < |lines| ==> lines[k] == lines[1..][k - 1];
      WrapLinesShort(lines[1..], width);
      assert lines == [lines[0]] + lines[1..];
    }
  }

  /** `wrap_lines` for any `max_width` Python accepts: a step of 0 makes
      `range` raise, a negative step gives an empty range for every line, and
      a positive one is the wrapper above. */
  function WrapLinesAnyWidth(lines: seq<string>, maxWidth: int): (r: Result<seq<string>>)
    ensures r.Failure? <==> maxWidth == 0 && |lines| > 0
    ensures r.Failure? ==> r.error == ZeroStep
    ensures maxWidth < 0 ==> r == Success([])
    ensures maxWidth > 0 ==> r.Success? && Concat(r.value) == Concat(lines)
                             && forall k :: 0 <= k < |r.value| ==> 0 < |r.value[k]| <= maxWidth
  {
    if maxWidth > 0 then
      WrapLinesConcat(lines, maxWidth);
      Success(WrapLines(lines, maxWidth))
    else if maxWidth < 0 || |lines| == 0 then Success([])
    else Failure(ZeroStep)
  }

  /* ---------------------------------------------------------------------- */
  /* The bubble                                                              */
  /* ---------------------------------------------------------------------- */

  /** The lines of `text` the bubble shows, before wrapping: every line of
      the text stripped, the blank ones dropped, the order kept. None is
      blank or has whitespace at either end, and there is at least one
      exactly when the text has a visible character. */
  function TextLines(text: string): (r: seq<string>)
    ensures forall k :: 0 <= k < |r| ==> Trimmed(r[k])
    ensures Avoids(r, '\n')
    ensures |r| > 0 <==> HasVisible(text)
  {
    var pieces := Split(text, '\n');
    StrippedTrimmed(pieces);
    StrippedAvoid(pieces, '\n');
    StrippedExist(text);
    NonEmpty(StripAll(pieces))
  }

  /** A line with a visible character, and none of whitespace at either
      end. */
  predicate Trimmed(x: string) {
    |x| > 0 && HasVisible(x) && !IsSpace(x[0]) && !IsSpace(x[|x| - 1])
  }

  /** Every stripped, non-blank line has a visible character at each end. */
  lemma StrippedTrimmed(xs: seq<string>)
    ensures forall k :: 0 <= k < |NonEmpty(StripAll(xs))| ==> Trimmed(NonEmpty(StripAll(xs))[k])
  {
    var r := NonEmpty(StripAll(xs));
    forall k | 0 <= k < |r| ensures Trimmed(r[k]) {
      StrippedMember(xs, r[k]);
    }
  }

  /** A non-empty line produced by stripping has a visible character at
      each end. */
  lemma StrippedMember(xs: seq<string>, x: string)
    requires x in StripAll(xs) && |x| > 0
    ensures Trimmed(x)
  {
    var j :| 0 <= j < |xs| && StripAll(xs)[j] == x;
    assert x == Strip(xs[j]);
  }

  /** Stripping and dropping blank lines introduce no character. */
  lemma StrippedAvoid(xs: seq<string>, c: char)
    requires Avoids(xs, c)
    ensures Avoids(NonEmpty(StripAll(xs)), c)
  {
    var stripped := StripAll(xs);
    forall k | 0 <= k < |xs| ensures c !in stripped[k] {
      StripKeepsAbsent(xs[k], c);
    }
    var r := NonEmpty(stripped);
    forall k | 0 <= k < |r| ensures c !in r[k] {
      assert r[k] in stripped;
    }
  }

  /** Some line survives stripping and filtering exactly when the text has a
      visible character. */
  lemma StrippedExist(text: string)
    ensures |NonEmpty(StripAll(Split(text, '\n')))| > 0 <==> HasVisible(text)
  {
    var pieces := Split(text, '\n');
    var stripped := StripAll(pieces);
    SplitVisible(text, '\n');
    if HasVisible(text) {
      var j :| 0 <= j < |pieces| && HasVisible(pieces[j]);
      assert stripped[j] != "";
    } else {
      forall j | 0 <= j < |pieces| ensures stripped[j] == "" {
        SplitInvisible(text, '\n', j);
      }
    }
  }

  /** A text without a newline is one line: it is kept, stripped, exactly
      when it has a visible character. */
  lemma TextLinesOne(s: string)
    requires '\n' !in s
    ensures TextLines(s) == if HasVisible(s) then [Strip(s)] else []
  {
    SplitFree(s, '\n');
    assert StripAll([s]) == [Strip(s)];
  }

  /** The lines of two texts joined by a newline are the lines of the first
      followed by those of the second: with `TextLinesOne` this fixes every
      kept line, its content and its place. */
  lemma TextLinesJoin(a: string, b: string)
    ensures TextLines(a + "\n" + b) == TextLines(a) + TextLines(b)
  {
    SplitAppend(a, b, '\n');
    StripAllAppend(Split(a, '\n'), Split(b, '\n'));
    NonEmptyAppend(StripAll(Split(a, '\n')), StripAll(Split(b, '\n')));
  }

  /** The wrapped lines the bubble frames: at least one exactly when the text
      has a visible character, each 1 to `MaxWidth` characters long, and
      together spelling the stripped, non-blank lines in order. */
  function BubbleText(text: string): (r: seq<string>)
    ensures forall k :: 0 <= k < |r| ==> 0 < |r[k]| <= MaxWidth
    ensures |r| > 0 <==> HasVisible(text)
    ensures Concat(r) == Concat(TextLines(text))
    ensures Avoids(r, '\n')
  {
    var lines := TextLines(text);
    assert |lines| > 0 ==> lines[0] != "";
    WrapLinesConcat(lines, MaxWidth);
    WrapLinesAvoids(lines, MaxWidth, '\n');
    WrapLines(lines, MaxWidth)
  }

  /** A top or bottom border `tw + 3` wide: a space, then `fill` throughout. */
  predicate IsBorder(row: string, fill: char, tw: int) {
    && tw >= 0
    && |row| == tw + 3
    && row[0] == ' '
    && forall j :: 1 <= j < |row| ==> row[j] == fill
  }

  /** A rounded connector `tw + 3` wide: a space, `left`, blanks, `right`. */
  predicate IsConnector(row: string, left: char, right: char, tw: int) {
    && tw >= 0
    && |row| == tw + 3
    && row[0] == ' ' && row[1] == left && row[tw + 2] == right
    && forall j :: 2 <= j < tw + 2 ==> row[j] == ' '
  }

  /** A content row `tw + 4` wide: `"< "`, the line, blanks up to the
      right edge, `">"`. */
  predicate IsRow(row: string, line: string, tw: int) {
    && |line| <= tw
    && |row| == tw + 4
    && row[..2] == "< "
    && row[2..2 + |line|] == line
    && (forall j :: 2 + |line| <= j < tw + 3 ==> row[j] == ' ')
    && row[tw + 3] == '>'
  }

  /** `"< " + line + " " * (tw - len(line) + 1) + ">"`. */
  function ContentRow(line: string, tw: int): (row: string)
    requires |line| <= tw
    ensures |row| == tw + 4
  {
    "< " + line + Repeat(' ', tw - |line| + 1) + ">"
  }

  /** A content row shows its line between `"< "` and the padded `">"`, and
      holds no other character. */
  lemma ContentRowShape(line: string, tw: int)
    requires |line| <= tw
    ensures IsRow(ContentRow(line, tw), line, tw)
    ensures forall c :: c in ContentRow(line, tw) <==> c in line || c in "< >"
  {
    var pad := Repeat(' ', tw - |line| + 1);
    var row := ContentRow(line, tw);
    assert row == "< " + line + pad + ">";
    assert forall c :: c in pad ==> c == ' ';
    assert forall c :: c in "< >" <==> c == '<' || c == ' ' || c == '>';
    assert row[..2] == "< ";
    assert row[2..2 + |line|] == line;
  }

  /** `" " + fill + fill * (tw + 1)`: the top (`_`) or bottom (`-`) border. */
  function Border(fill: char, tw: nat): (row: string)
    ensures |row| == tw + 3
  {
    [' ', fill] + Repeat(fill, tw + 1)
  }

  lemma BorderShape(fill: char, tw: nat)
    ensures IsBorder(Border(fill, tw), fill, tw)
    ensures forall c :: c in Border(fill, tw) ==> c == ' ' || c == fill
  {
  }

  /** `" " + left + " " * tw + right`: a rounded connector. */
  function Connector(left: char, right: char, tw: nat): (row: string)
    ensures |row| == tw + 3
  {
    [' ', left] + Repeat(' ', tw) + [right]
  }

  lemma ConnectorShape(left: char, right: char, tw: nat)
    ensures IsConnector(Connector(left, right, tw), left, right, tw)
    ensures forall c :: c in Connector(left, right, tw) ==> c == ' ' || c == left || c == right
  {
  }

  /** One content row per line, in order. */
  function Rows(lines: seq<string>, tw: int): (r: seq<string>)
    requires forall k :: 0 <= k < |lines| ==> |lines[k]| <= tw
    ensures |r| == |lines|
    ensures forall k :: 0 <= k < |r| ==> r[k] == ContentRow(lines[k], tw)
  {
    if |lines| == 0 then []
    else [ContentRow(lines[0], tw)] + Rows(lines[1..], tw)
  }

  /** The connector rows `[Connector(left, right, tw)]` if there is more than
      one line, none otherwise. */
  function Connectors(n: nat, left: char, right: char, tw: nat): (r: seq<string>)
    ensures |r| == (if n > 1 then 1 else 0)
  {
    if n > 1 then [Connector(left, right, tw)] else []
  }

  /** Index of the first content row: after the top border, and after the
      opening connector when there is one. */
  function FirstRow(n: nat): (row: nat) {
    if n > 1 then 2 else 1
  }

  /** The rows above the content of an `n`-line bubble: the top border, then
      the opening connector when `n > 1`. All are `tw + 3` wide. */
  function Top(n: nat, tw: nat): (r: seq<string>)
    ensures |r| == FirstRow(n)
    ensures forall k :: 0 <= k < |r| ==> |r[k]| == tw + 3
  {
    [Border('_', tw)] + Connectors(n, '/', '\\', tw)
  }

  /** The rows below the content of an `n`-line bubble: the closing
      connector when `n > 1`, then the bottom border. All are `tw + 3`
      wide. */
  function Bottom(n: nat, tw: nat): (r: seq<string>)
    ensures |r| == FirstRow(n)
    ensures forall k :: 0 <= k < |r| ==> |r[k]| == tw + 3
  {
    Connectors(n, '\\', '/', tw) + [Border('-', tw)]
  }

  /** `generate_bubble` once the wrapped lines are known and non-empty, with
      `tw` their longest: the rows above, one content row per line, the rows
      below. `FrameShape` and `FrameWidth` state what it draws. */
  function Frame(lines: seq<string>): (r: seq<string>)
    requires |lines| > 0
    ensures |r| == (if |lines| > 1 then |lines| + 4 else |lines| + 2)
  {
    var tw := MaxLen(lines);
    Top(|lines|, tw) + Rows(lines, tw) + Bottom(|lines|, tw)
  }

  /** The bubble, row by row, with `tw` the longest wrapped line: a top
      border of `_`; an opening connector `/ ... \` exactly when there is
      more than one line; one content row per line, in order; a closing
      connector `\ ... /` likewise; a bottom border of `-`. So the bubble
      has `n + 2` rows for one line and `n + 4` for `n > 1` lines. */
  lemma FrameShape(lines: seq<string>)
    requires |lines| > 0
    ensures IsBorder(Frame(lines)[0], '_', MaxLen(lines))
    ensures IsBorder(Frame(lines)[|Frame(lines)| - 1], '-', MaxLen(lines))
    ensures |lines| > 1 ==> IsConnector(Frame(lines)[1], '/', '\\', MaxLen(lines))
    ensures |lines| > 1 ==> IsConnector(Frame(lines)[|Frame(lines)| - 2], '\\', '/', MaxLen(lines))
    ensures forall k :: 0 <= k < |lines| ==> IsRow(Frame(lines)[FirstRow(|lines|) + k], lines[k], MaxLen(lines))
  {
    FrameEdges(lines);
    FrameRows(lines);
  }

  lemma FrameEdges(lines: seq<string>)
    requires |lines| > 0
    ensures IsBorder(Frame(lines)[0], '_', MaxLen(lines))
    ensures IsBorder(Frame(lines)[|Frame(lines)| - 1], '-', MaxLen(lines))
    ensures |lines| > 1 ==> IsConnector(Frame(lines)[1], '/', '\\', MaxLen(lines))
    ensures |lines| > 1 ==> IsConnector(Frame(lines)[|Frame(lines)| - 2], '\\', '/', MaxLen(lines))
  {
    var tw := MaxLen(lines);
    var top := Top(|lines|, tw);
    var bottom := Bottom(|lines|, tw);
    var r := Frame(lines);
    var head := top + Rows(lines, tw);
    assert r == head + bottom;
    assert r[0] == head[0] == top[0] == Border('_', tw);
    assert r[|r| - 1] == bottom[|bottom| - 1] == Border('-', tw);
    BorderShape('_', tw);
    BorderShape('-', tw);
    if |lines| > 1 {
      assert r[1] == head[1] == top[1] == Connector('/', '\\', tw);
      assert r[|r| - 2] == bottom[0] == Connector('\\', '/', tw);
      ConnectorShape('/', '\\', tw);
      ConnectorShape('\\', '/', tw);
    }
  }

  lemma FrameRows(lines: seq<string>)
    requires |lines| > 0
    ensures forall k :: 0 <= k < |lines| ==> IsRow(Frame(lines)[FirstRow(|lines|) + k], lines[k], MaxLen(lines))
  {
    forall k | 0 <= k < |lines| ensures IsRow(Frame(lines)[FirstRow(|lines|) + k], lines[k], MaxLen(lines)) {
      FrameRow(lines, k);
    }
  }

  lemma FrameRow(lines: seq<string>, k: nat)
    requires k < |lines|
    ensures IsRow(Frame(lines)[FirstRow(|lines|) + k], lines[k], MaxLen(lines))
  {
    var tw := MaxLen(lines);
    IndexMiddle(Top(|lines|, tw), Rows(lines, tw), Bottom(|lines|, tw), k);
    ContentRowShape(lines[k], tw);
  }

  lemma IndexMiddle<T>(xs: seq<T>, ys: seq<T>, zs: seq<T>, k: nat)
    requires k < |ys|
    ensures (xs + ys + zs)[|xs| + k] == ys[k]
  {
  }

  /** The content rows are the widest lines of the bubble, 4 wider than the
      longest wrapped line; borders and connectors are one narrower. */
  lemma FrameWidth(lines: seq<string>)
    requires |lines| > 0
    ensures MaxLen(Frame(lines)) == MaxLen(lines) + 4
  {
    var tw := MaxLen(lines);
    RowsWidth(lines);
    EdgesNarrow(|lines|, tw);
    WidestMiddle(Top(|lines|, tw), Rows(lines, tw), Bottom(|lines|, tw), tw + 4);
  }

  lemma EdgesNarrow(n: nat, tw: nat)
    ensures forall k :: 0 <= k < |Top(n, tw)| ==> |Top(n, tw)[k]| <= tw + 4
    ensures forall k :: 0 <= k < |Bottom(n, tw)| ==> |Bottom(n, tw)[k]| <= tw + 4
  {
  }

  /** Content rows are all `tw + 4` wide, and there is at least one. */
  lemma RowsWidth(lines: seq<string>)
    requires |lines| > 0
    ensures MaxLen(Rows(lines, MaxLen(lines))) == MaxLen(lines) + 4
  {
    var tw := MaxLen(lines);
    var rows := Rows(lines, tw);
    assert |rows[0]| == tw + 4;
    MaxLenIs(rows, tw + 4);
  }

  /** If the middle part is `w` wide and nothing around it is wider, the
      whole is `w` wide. */
  lemma WidestMiddle(xs: seq<string>, ys: seq<string>, zs: seq<string>, w: nat)
    requires |ys| > 0 && MaxLen(ys) == w
    requires forall k :: 0 <= k < |xs| ==> |xs[k]| <= w
    requires forall k :: 0 <= k < |zs| ==> |zs[k]| <= w
    ensures MaxLen(xs + ys + zs) == w
  {
    var all := xs + ys + zs;
    forall k | 0 <= k < |all| ensures |all[k]| <= w {
      if k < |xs| {
        assert all[k] == xs[k];
      } else if k < |xs| + |ys| {
        assert all[k] == ys[k - |xs|];
      } else {
        assert all[k] == zs[k - |xs| - |ys|];
      }
    }
    var j :| 0 <= j < |ys| && |ys[j]| == w;
    assert all[|xs| + j] == ys[j];
    MaxLenIs(all, w);
  }

  /** `generate_bubble(text)`: it fails (as `max` of an empty list) exactly
      when the text has no visible character, and otherwise frames at least
      three lines. */
  function GenerateBubble(text: string): (r: Result<seq<string>>)
    ensures r.Success? <==> HasVisible(text)
    ensures r.Failure? ==> r.error == EmptyMax
    ensures r.Success? ==> |r.value| >= 3
  {
    var lines := BubbleText(text);
    if |lines| == 0 then Failure(EmptyMax) else Success(Frame(lines))
  }

  /* ---------------------------------------------------------------------- */
  /* The figure                                                              */
  /* ---------------------------------------------------------------------- */

  /** The figure as written in the plugin: a raw string that begins and ends
      with a newline. The module plugin carries an identical copy. */
  const Cow: string :=
    "\n" + (CowLines[0] + "\n" + (CowLines[1] + "\n" + (CowLines[2] + "\n" + (CowLines[3] + "\n" + (CowLines[4] + "\n")))))

  /** The five lines of the figure. */
  const CowLines: seq<string> :=
    [@"\   ^__^", @" \  (oo)\_______", @"    (__)\       )\/\", @"        ||----w |", @"        ||     ||"]

  /** The bubble is drawn without newlines. */
  lemma NewlineNotDrawn()
    ensures '\n' !in "<>/\\ _-"
  {
    var d := "<>/\\ _-";
    assert d == ['<', '>', '/', '\\', ' ', '_', '-'];
  }

  lemma CowLinesAvoidNewline()
    ensures Avoids(CowLines, '\n')
  {
    assert '\n' !in CowLines[0];
    assert '\n' !in CowLines[1];
    assert '\n' !in CowLines[2];
    assert '\n' !in CowLines[3];
    assert '\n' !in CowLines[4];
  }

  /** The raw figure is its five lines between two newlines. */
  lemma CowIsJoin()
    ensures Cow == Join([""] + CowLines + [""], '\n')
  {
    var l := CowLines;
    assert l == [l[0], l[1], l[2], l[3], l[4]];
    JoinFive(l[0], l[1], l[2], l[3], l[4], '\n');
  }

  /** Five pieces between two empty ones join to each piece preceded by
      the separator, and a final separator. */
  lemma JoinFive(a: string, b: string, c: string, d: string, e: string, sep: char)
    ensures Join([""] + [a, b, c, d, e] + [""], sep)
            == [sep] + (a + [sep] + (b + [sep] + (c + [sep] + (d + [sep] + (e + [sep])))))
  {
    assert e + [sep] + Join([""], sep) == e + [sep];
    JoinCons(e, [""], sep);
    JoinCons(d, [e, ""], sep);
    JoinCons(c, [d, e, ""], sep);
    JoinCons(b, [c, d, e, ""], sep);
    JoinCons(a, [b, c, d, e, ""], sep);
    JoinCons("", [a, b, c, d, e, ""], sep);
    assert [""] + [a, b, c, d, e] + [""] == ["", a, b, c, d, e, ""];
  }

  /** Splitting the figure on newlines and dropping the empty pieces gives
      its five lines. */
  lemma FigureLines()
    ensures NonEmpty(Split(Cow, '\n')) == CowLines
  {
    var pieces := [""] + CowLines + [""];
    CowIsJoin();
    CowLinesAvoidNewline();
    assert Avoids(pieces, '\n') by {
      forall k | 0 <= k < |pieces| ensures '\n' !in pieces[k] {
        if 0 < k < |pieces| - 1 {
          assert pieces[k] == CowLines[k - 1];
        }
      }
    }
    SplitJoin(pieces, '\n');
    NonEmptyAppend([""] + CowLines, [""]);
    NonEmptyAppend([""], CowLines);
    assert NonEmpty([""]) == [];
    assert NonEmpty(CowLines) == CowLines by {
      assert CowLines[1..][1..][1..][1..][1..] == [];
    }
  }

  /** Python's `int(x / 2)`: half of `x`, rounded toward zero. */
  function TruncHalf(x: int): (h: int)
    ensures x >= 0 ==> 0 <= 2 * h <= x < 2 * h + 2
    ensures x < 0 ==> 2 * h - 2 < x <= 2 * h <= 0
  {
    if x >= 0 then x / 2 else -((-x) / 2)
  }

  /** `max(int(text_width / 2), 2)`: the figure's indentation. It is at
      least 2, and for widths of 4 or more it is the width halved, rounded
      down. */
  function Indent(textWidth: int): (n: nat)
    ensures n >= 2
    ensures textWidth < 4 ==> n == 2
    ensures textWidth >= 4 ==> 2 * n <= textWidth < 2 * n + 2
  {
    var h := TruncHalf(textWidth);
    if h >= 2 then h else 2
  }

  /** `generate_char(text_width)`: the five figure lines, each behind the
      same `Indent(text_width)` spaces and otherwise unchanged. */
  function GenerateChar(textWidth: int): (r: seq<string>)
    ensures |r| == |CowLines| == 5
    ensures forall k :: 0 <= k < |r| ==>
              && |r[k]| == Indent(textWidth) + |CowLines[k]|
              && (forall j :: 0 <= j < Indent(textWidth) ==> r[k][j] == ' ')
              && r[k][Indent(textWidth)..] == CowLines[k]
  {
    var charLines := NonEmpty(Split(Cow, '\n'));
    FigureLines();
    var pad := Repeat(' ', Indent(textWidth));
    seq(|charLines|, k requires 0 <= k < |charLines| => pad + charLines[k])
  }

  /** The widest figure line is its third, 20 characters behind the indent. */
  lemma FigureWidth(textWidth: int)
    ensures MaxLen(GenerateChar(textWidth)) == Indent(textWidth) + 20
  {
    var r := GenerateChar(textWidth);
    assert |CowLines[0]| == 8 && |CowLines[1]| == 16 && |CowLines[2]| == 20;
    assert |CowLines[3]| == 17 && |CowLines[4]| == 17;
    MaxLenIs(r, Indent(textWidth) + 20);
  }

  /* ---------------------------------------------------------------------- */
  /* Assembly                                                                */
  /* ---------------------------------------------------------------------- */

  /** `draw(text)` of the lookup plugin. It fails exactly when the text has
      no visible character; `DrawLines` and `DrawFits` state what it draws
      and the width it reports. */
  function Draw(text: string): (r: Result<Drawing>)
    ensures r.Failure? <==> !HasVisible(text)
    ensures r.Failure? ==> r.error == NothingToSay
  {
    if |RemoveSpace(text)| == 0 then Failure(NothingToSay)
    else
      var bubble := GenerateBubble(text).value;
      var textWidth := MaxLen(bubble) - 4;
      var output := bubble + GenerateChar(textWidth);
      Success(Drawing(MaxLen(output) + 1, output))
  }

  /** A drawing is the bubble around the wrapped text followed by the
      figure indented for the width of that text: the bubble's widest line
      minus its 4-character frame is exactly the longest wrapped line. */
  lemma DrawLines(text: string)
    requires HasVisible(text)
    ensures |BubbleText(text)| > 0
    ensures Draw(text).value.lines == Frame(BubbleText(text)) + GenerateChar(MaxLen(BubbleText(text)))
  {
    FrameWidth(BubbleText(text));
  }

  /** The reported width is one more than the longest line drawn: every
      line fits strictly inside it, and some line reaches its last column
      but one. */
  lemma DrawFits(text: string)
    requires HasVisible(text)
    ensures forall k :: 0 <= k < |Draw(text).value.lines| ==> |Draw(text).value.lines[k]| < Draw(text).value.width
    ensures exists k :: 0 <= k < |Draw(text).value.lines| && |Draw(text).value.lines[k]| + 1 == Draw(text).value.width
  {
    var d := Draw(text).value;
    assert d.width == MaxLen(d.lines) + 1;
  }

  /** Every wrapped line holds between 1 and `MaxWidth` characters, so the
      width the figure is indented for lies in that range too. */
  lemma BubbleTextWidth(text: string)
    requires HasVisible(text)
    ensures 1 <= MaxLen(BubbleText(text)) <= MaxWidth
  {
    var lines := BubbleText(text);
    var k :| 0 <= k < |lines| && |lines[k]| == MaxLen(lines);
  }

  /** The width a successful drawing reports is one more than the longest
      of its frame and figure lines. */
  lemma DrawWidthIsMaxLen(text: string)
    requires HasVisible(text)
    ensures Draw(text).value.width ==
              MaxLen(Frame(BubbleText(text)) + GenerateChar(MaxLen(BubbleText(text)))) + 1
  {
    DrawLines(text);
  }

  /** The reported width is the wider of the bubble's content rows and the
      figure's widest line, plus one. */
  lemma DrawWidth(text: string)
    requires HasVisible(text)
    ensures Draw(text).value.width ==
              Max(MaxLen(BubbleText(text)) + 4, Indent(MaxLen(BubbleText(text))) + 20) + 1
  {
    DrawWidthOfParts(text);
    PartWidths(text);
  }

  lemma DrawWidthOfParts(text: string)
    requires HasVisible(text)
    ensures Draw(text).value.width ==
              Max(MaxLen(Frame(BubbleText(text))), MaxLen(GenerateChar(MaxLen(BubbleText(text))))) + 1
  {
    DrawWidthIsMaxLen(text);
    MaxLenAppend(Frame(BubbleText(text)), GenerateChar(MaxLen(BubbleText(text))));
  }

  lemma PartWidths(text: string)
    requires HasVisible(text)
    ensures MaxLen(Frame(BubbleText(text))) == MaxLen(BubbleText(text)) + 4
    ensures MaxLen(GenerateChar(MaxLen(BubbleText(text)))) == Indent(MaxLen(BubbleText(text))) + 20
  {
    FrameWidth(BubbleText(text));
    FigureWidth(MaxLen(BubbleText(text)));
  }

  lemma AvoidsAppend(xs: seq<string>, ys: seq<string>, c: char)
    requires Avoids(xs, c) && Avoids(ys, c)
    ensures Avoids(xs + ys, c)
  {
    assert forall k :: |xs| <= k < |xs + ys| ==> (xs + ys)[k] == ys[k - |xs|];
  }

  lemma EdgesAvoid(n: nat, tw: nat, c: char)
    requires c !in "/\\ _-"
    ensures Avoids(Top(n, tw), c) && Avoids(Bottom(n, tw), c)
  {
    var top, bottom := Top(n, tw), Bottom(n, tw);
    assert top[0] == Border('_', tw);
    assert bottom[|bottom| - 1] == Border('-', tw);
    BorderShape('_', tw);
    BorderShape('-', tw);
    if n > 1 {
      assert top[1] == Connector('/', '\\', tw);
      assert bottom[0] == Connector('\\', '/', tw);
      ConnectorShape('/', '\\', tw);
      ConnectorShape('\\', '/', tw);
    }
  }

  lemma FrameAvoids(lines: seq<string>, c: char)
    requires |lines| > 0 && Avoids(lines, c)
    requires c !in "<>/\\ _-"
    ensures Avoids(Frame(lines), c)
  {
    var tw := MaxLen(lines);
    var rows := Rows(lines, tw);
    forall k | 0 <= k < |rows| ensures c !in rows[k] {
      assert rows[k] == ContentRow(lines[k], tw);
      ContentRowShape(lines[k], tw);
    }
    EdgesAvoid(|lines|, tw, c);
    AvoidsAppend(Top(|lines|, tw), rows, c);
    AvoidsAppend(Top(|lines|, tw) + rows, Bottom(|lines|, tw), c);
  }

  lemma FigureAvoids(textWidth: int, c: char)
    requires c != ' ' && forall k :: 0 <= k < |CowLines| ==> c !in CowLines[k]
    ensures Avoids(GenerateChar(textWidth), c)
  {
    var g := GenerateChar(textWidth);
    var ind := Indent(textWidth);
    forall k | 0 <= k < |g| ensures c !in g[k] {
      forall j | 0 <= j < |g[k]| ensures g[k][j] != c {
        if j >= ind {
          assert g[k][j] == g[k][ind..][j - ind];
        }
      }
    }
  }

  /** A drawing never contains a newline inside a line. */
  lemma DrawAvoidsNewline(text: string)
    requires HasVisible(text)
    ensures Avoids(Draw(text).value.lines, '\n')
  {
    DrawLines(text);
    PartsAvoidNewline(BubbleText(text));
  }

  /** Neither the bubble around newline-free lines nor the figure holds a
      newline. */
  lemma PartsAvoidNewline(lines: seq<string>)
    requires |lines| > 0 && Avoids(lines, '\n')
    ensures Avoids(Frame(lines) + GenerateChar(MaxLen(lines)), '\n')
  {
    FrameAvoidsNewline(lines);
    FigureAvoidsNewline(MaxLen(lines));
    AvoidsAppend(Frame(lines), GenerateChar(MaxLen(lines)), '\n');
  }

  lemma FrameAvoidsNewline(lines: seq<string>)
    requires |lines| > 0 && Avoids(lines, '\n')
    ensures Avoids(Frame(lines), '\n')
  {
    NewlineNotDrawn();
    FrameAvoids(lines, '\n');
  }

  lemma FigureAvoidsNewline(textWidth: int)
    ensures Avoids(GenerateChar(textWidth), '\n')
  {
    CowLinesAvoidNewline();
    FigureAvoids(textWidth, '\n');
  }
}
