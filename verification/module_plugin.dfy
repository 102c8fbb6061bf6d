/**
 The cowsay module plugin. It carries its own copy of the renderer, written
 as loops over Python lists; each method here follows one of those loops and
 is proved to compute what the lookup plugin's renderer computes, so the two
 copies draw the same picture.
 */
module CowsayModule {
  import opened Text
  import opened Lookup

  /** `wrap_lines(lines, max_width)`: for every line, the slices
      `line[i:i+max_width]` for `i` in `range(0, len(line), max_width)`, in
      order. A `max_width` of 0 makes `range` raise as soon as there is a
      line; a negative one gives no slice at all. */
  method WrapLines(lines: seq<string>, maxWidth: int) returns (r: Result<seq<string>>)
    ensures r == WrapLinesAnyWidth(lines, maxWidth)
  {
    if maxWidth == 0 && |lines| > 0 {
      return Failure(ZeroStep);
    }
    if maxWidth < 0 || |lines| == 0 {
      return Success([]);
    }
    var newLines: seq<string> := [];
    var j := 0;
    while j < |lines|
      invariant 0 <= j <= |lines|
      invariant newLines == Lookup.WrapLines(lines[..j], maxWidth)
    {
      newLines := AppendSlices(newLines, lines[j], maxWidth);
      WrapLinesStep(lines, j, maxWidth);
      j := j + 1;
    }
    assert lines[..j] == lines;
    return Success(newLines);
  }

  /** The inner loop of `wrap_lines`: the slices of one line appended in
      order. */
  method AppendSlices(newLines: seq<string>, line: string, maxWidth: nat) returns (r: seq<string>)
    requires maxWidth > 0
    ensures r == newLines + Chunks(line, maxWidth)
  {
    r := newLines;
    var i := 0;
    while i < |line|
      invariant 0 <= i
      invariant r + Chunks(line[Min(i, |line|)..], maxWidth) == newLines + Chunks(line, maxWidth)
    {
      var hi := Min(i + maxWidth, |line|);
      SliceStep(line, i, maxWidth);
      r := r + [line[i..hi]];
      i := i + maxWidth;
    }
    assert line[Min(i, |line|)..] == [];
  }

  /** One turn of the slicing loop: the slice at `i` is the first chunk of
      the rest of the line. */
  lemma SliceStep(line: string, i: nat, width: nat)
    requires width > 0 && i < |line|
    ensures var hi := Min(i + width, |line|);
            Chunks(line[i..], width) == [line[i..hi]] + Chunks(line[Min(i + width, |line|)..], width)
  {
    var s := line[i..];
    ChunksStep(s, width);
    var hi := Min(i + width, |line|);
    assert s[..Min(width, |s|)] == line[i..hi];
    assert s[Min(width, |s|)..] == line[hi..];
  }

  /** Wrapping one more line appends its chunks. */
  lemma WrapLinesStep(lines: seq<string>, j: nat, width: nat)
    requires width > 0 && j < |lines|
    ensures Lookup.WrapLines(lines[..j + 1], width) == Lookup.WrapLines(lines[..j], width) + Chunks(lines[j], width)
  {
    assert lines[..j + 1] == lines[..j] + [lines[j]];
    WrapLinesAppend(lines[..j], [lines[j]], width);
    WrapLinesSingle(lines[j], width);
  }

  /** `max([len(line) for line in xs])`, which raises on an empty list. */
  method LongestLine(xs: seq<string>) returns (r: Result<nat>)
    ensures r.Failure? <==> |xs| == 0
    ensures r.Failure? ==> r.error == EmptyMax
    ensures r.Success? ==> r.value == MaxLen(xs)
  {
    if |xs| == 0 {
      return Failure(EmptyMax);
    }
    var m := |xs[0]|;
    var k := 1;
    while k < |xs|
      invariant 1 <= k <= |xs|
      invariant m == MaxLen(xs[..k])
    {
      assert xs[..k + 1] == xs[..k] + [xs[k]];
      MaxLenAppend(xs[..k], [xs[k]]);
      if |xs[k]| > m {
        m := |xs[k]|;
      }
      k := k + 1;
    }
    assert xs[..k] == xs;
    return Success(m);
  }

  /** `[line.strip() for line in pieces]` followed by `[line for line in
      lines if line]`. */
  method StrippedLines(pieces: seq<string>) returns (kept: seq<string>)
    ensures kept == NonEmpty(StripAll(pieces))
  {
    var stripped: seq<string> := [];
    var k := 0;
    while k < |pieces|
      invariant 0 <= k <= |pieces|
      invariant |stripped| == k
      invariant forall j :: 0 <= j < k ==> stripped[j] == Strip(pieces[j])
    {
      stripped := stripped + [Strip(pieces[k])];
      k := k + 1;
    }
    assert stripped == StripAll(pieces);
    kept := KeepNonEmpty(stripped);
  }

  /** `[x for x in xs if x]`: the non-empty strings, in order. */
  method KeepNonEmpty(xs: seq<string>) returns (kept: seq<string>)
    ensures kept == NonEmpty(xs)
  {
    kept := [];
    var k := 0;
    while k < |xs|
      invariant 0 <= k <= |xs|
      invariant kept == NonEmpty(xs[..k])
    {
      assert xs[..k + 1] == xs[..k] + [xs[k]];
      NonEmptyAppend(xs[..k], [xs[k]]);
      assert [xs[k]][1..] == [];
      if xs[k] != "" {
        kept := kept + [xs[k]];
      }
      k := k + 1;
    }
    assert xs[..k] == xs;
  }

  /** `generate_bubble(text)`. */
  method GenerateBubble(text: string) returns (r: Result<seq<string>>)
    ensures r == Lookup.GenerateBubble(text)
  {
    var kept := StrippedLines(Split(text, '\n'));
    var wrapped := WrapLines(kept, MaxWidth);
    var lines := wrapped.value;
    var longest := LongestLine(lines);
    if longest.Failure? {
      return Failure(longest.error);
    }
    var output := FrameLines(lines, longest.value);
    return Success(output);
  }

  /** The drawing part of `generate_bubble`, once the wrapped lines and
      their longest length `tw` are known. */
  method FrameLines(lines: seq<string>, tw: nat) returns (output: seq<string>)
    requires |lines| > 0 && tw == MaxLen(lines)
    ensures output == Frame(lines)
  {
    output := [" _" + Repeat('_', tw + 1)];
    if |lines| > 1 {
      output := output + [" /" + Repeat(' ', tw) + "\\"];
    }
    TopText(|lines|, tw);
    output := AppendRows(output, lines, tw);
    var rest: seq<string> := [];
    if |lines| > 1 {
      rest := [" \\" + Repeat(' ', tw) + "/"];
    }
    rest := rest + [" -" + Repeat('-', tw + 1)];
    BottomText(|lines|, tw);
    output := output + rest;
  }

  /** The `for line in lines` loop of `generate_bubble`: one content row
      per line appended to `output`. */
  method AppendRows(output: seq<string>, lines: seq<string>, tw: int) returns (r: seq<string>)
    requires forall j :: 0 <= j < |lines| ==> |lines[j]| <= tw
    ensures r == output + Rows(lines, tw)
  {
    r := output;
    var k := 0;
    while k < |lines|
      invariant 0 <= k <= |lines|
      invariant r == output + Rows(lines[..k], tw)
    {
      RowsStep(lines, k, tw);
      r := r + ["< " + lines[k] + Repeat(' ', tw - |lines[k]| + 1) + ">"];
      k := k + 1;
    }
    assert lines[..k] == lines;
  }

  /** The rows Python appends before the content rows are `Top`. */
  lemma TopText(n: nat, tw: nat)
    ensures [" _" + Repeat('_', tw + 1)] + (if n > 1 then [" /" + Repeat(' ', tw) + "\\"] else [])
            == Top(n, tw)
  {
  }

  /** The rows Python appends after the content rows are `Bottom`. */
  lemma BottomText(n: nat, tw: nat)
    ensures (if n > 1 then [" \\" + Repeat(' ', tw) + "/"] else []) + [" -" + Repeat('-', tw + 1)]
            == Bottom(n, tw)
  {
  }

  /** Framing one more line appends its content row. */
  lemma RowsStep(lines: seq<string>, k: nat, tw: int)
    requires k < |lines| && forall j :: 0 <= j < |lines| ==> |lines[j]| <= tw
    ensures Rows(lines[..k + 1], tw) == Rows(lines[..k], tw) + [ContentRow(lines[k], tw)]
  {
    var a := Rows(lines[..k + 1], tw);
    var b := Rows(lines[..k], tw) + [ContentRow(lines[k], tw)];
    assert |a| == |b|;
    forall j | 0 <= j < |a| ensures a[j] == b[j] {
      assert lines[..k + 1][j] == lines[j];
      if j < k {
        assert lines[..k][j] == lines[j];
      }
    }
  }

  /** `generate_char(text_width)`. */
  method GenerateChar(textWidth: int) returns (output: seq<string>)
    ensures output == Lookup.GenerateChar(textWidth)
  {
    var charLines := KeepNonEmpty(Split(Cow, '\n'));
    FigureLines();
    var pad := Repeat(' ', Max(TruncHalf(textWidth), 2));
    assert pad == Repeat(' ', Indent(textWidth));
    output := [];
    var k := 0;
    while k < |charLines|
      invariant 0 <= k <= |charLines|
      invariant |output| == k
      invariant forall j :: 0 <= j < k ==> output[j] == pad + charLines[j]
    {
      output := output + [pad + charLines[k]];
      k := k + 1;
    }
    FigureIsPadded(output, textWidth);
  }

  /** The figure lines, each behind the indent, are the figure drawn. */
  lemma FigureIsPadded(output: seq<string>, textWidth: int)
    requires |output| == |CowLines|
    requires forall j :: 0 <= j < |output| ==> output[j] == Repeat(' ', Indent(textWidth)) + CowLines[j]
    ensures output == Lookup.GenerateChar(textWidth)
  {
    var g := Lookup.GenerateChar(textWidth);
    var pad := Repeat(' ', Indent(textWidth));
    forall j | 0 <= j < |output| ensures output[j] == g[j] {
      assert g[j][..Indent(textWidth)] == pad;
      assert g[j] == g[j][..Indent(textWidth)] + g[j][Indent(textWidth)..];
    }
  }

  /** `draw(text)` of the module plugin: the lines of the lookup plugin's
      drawing, without the width. */
  method Draw(text: string) returns (r: Result<seq<string>>)
    ensures r.Failure? <==> !HasVisible(text)
    ensures r.Failure? ==> r.error == NothingToSay
    ensures r.Success? ==> r.value == Lookup.Draw(text).value.lines
  {
    if |RemoveSpace(text)| == 0 {
      return Failure(NothingToSay);
    }
    var bubble := GenerateBubble(text);
    var output := bubble.value;
    var longest := LongestLine(output);
    var textWidth := longest.value - 4;
    var figure := GenerateChar(textWidth);
    return Success(output + figure);
  }

  /** What the module reports in its `message`: nothing in check mode,
      otherwise the drawing's lines. */
  datatype Message = Blank | Drawn(lines: seq<string>)

  /** The module's result: `changed` and `message`. */
  datatype ModuleResult = ModuleResult(changed: bool, message: Message)

  /** `run_module()` once the `text` option is read: in check mode it
      reports nothing; otherwise it reports the drawing, or fails like
      `draw`. It never reports a change. */
  method RunModule(text: string, checkMode: bool) returns (r: Result<ModuleResult>)
    ensures checkMode ==> r == Success(ModuleResult(false, Blank))
    ensures !checkMode ==> (r.Failure? <==> !HasVisible(text))
    ensures !checkMode && r.Failure? ==> r.error == NothingToSay
    ensures !checkMode && r.Success? ==> r.value == ModuleResult(false, Drawn(Lookup.Draw(text).value.lines))
  {
    if checkMode {
      return Success(ModuleResult(false, Blank));
    }
    var drawn := Draw(text);
    if drawn.Failure? {
      return Failure(drawn.error);
    }
    return Success(ModuleResult(false, Drawn(drawn.value)));
  }
}
