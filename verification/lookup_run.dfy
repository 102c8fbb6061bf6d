/**
 The `run` entry point of the cowsay lookup plugin: it draws the first term
 and writes the drawing out line by line, putting the entries of the
 optional `sysinfo` list to the right of the lines between the first and the
 last, in a column just past the drawing's width.
 */
module LookupRun {
  import opened Text
  import opened Lookup

  /** The `sysinfo` keyword argument: missing, a list (its entries modelled
      by their text, an empty text being falsy), or some other value. */
  datatype SysInfo = Absent | Given(items: seq<string>) | NotAList

  /** The list the plugin works with: a missing argument is the empty list. */
  function Items(sysinfo: SysInfo): (items: seq<string>)
    requires !sysinfo.NotAList?
  {
    if sysinfo.Given? then sysinfo.items else []
  }

  /** `sysinfo[n]`, with the `IndexError` past the end read as `""`. */
  function Info(items: seq<string>, n: nat): (info: string) {
    if n < |items| then items[n] else ""
  }

  /** A row showing `info` beside `line`: the line left-aligned in a field
      of `width` columns (wider if the line is), then `" | "`, then the
      info. */
  predicate IsAnnotated(row: string, line: string, width: int, info: string) {
    var w := Max(width, |line|);
    && |row| == w + 3 + |info|
    && row[..|line|] == line
    && (forall j :: |line| <= j < w ==> row[j] == ' ')
    && row[w..w + 3] == " | "
    && row[w + 3..] == info
  }

  /** One line of the output without its newline: `"{1:{0}} | {2}"` when
      the info is truthy, the bare line otherwise. */
  function AnnotateLine(line: string, width: int, info: string): (r: string)
    ensures info == "" ==> r == line
    ensures info != "" ==> IsAnnotated(r, line, width, info)
  {
    if info == "" then line
    else
      var padded := PadRight(line, width);
      var r := padded + " | " + info;
      assert r[..|line|] == padded[..|line|];
      assert r[|padded|..|padded| + 3] == " | ";
      r
  }

  /** An annotated line holds only the characters of the line, the info,
      blanks and the bar. */
  lemma AnnotateLineChars(line: string, width: int, info: string, c: char)
    requires c !in line && c !in info && c != ' ' && c != '|'
    ensures c !in AnnotateLine(line, width, info)
  {
    if info != "" {
      var padded := PadRight(line, width);
      assert c !in padded by {
        forall j | 0 <= j < |padded| ensures padded[j] != c {
          if j < |line| {
            assert padded[j] == padded[..|line|][j];
          }
        }
      }
      assert AnnotateLine(line, width, info) == padded + " | " + info;
    }
  }

  /** The loop of `run` without the newlines: the first and the last line as
      drawn, line `i` in between beside `sysinfo[i - 1]`. */
  function Annotate(lines: seq<string>, width: int, items: seq<string>): (r: seq<string>)
    ensures |r| == |lines|
  {
    seq(|lines|, i requires 0 <= i < |lines| =>
      if i == 0 || i == |lines| - 1 then lines[i]
      else AnnotateLine(lines[i], width, Info(items, i - 1)))
  }

  /** What annotating does to each line: the first and the last stay as
      drawn, a middle line with a falsy info too, and every other middle
      line shows its info beside it. */
  lemma AnnotateShape(lines: seq<string>, width: int, items: seq<string>)
    ensures var r := Annotate(lines, width, items);
            |lines| > 0 ==> r[0] == lines[0] && r[|r| - 1] == lines[|lines| - 1]
    ensures forall i :: 0 < i < |lines| - 1 && Info(items, i - 1) == "" ==> Annotate(lines, width, items)[i] == lines[i]
    ensures forall i :: 0 < i < |lines| - 1 && Info(items, i - 1) != "" ==>
              IsAnnotated(Annotate(lines, width, items)[i], lines[i], width, Info(items, i - 1))
  {
    var r := Annotate(lines, width, items);
    forall i | 0 < i < |lines| - 1
      ensures r[i] == AnnotateLine(lines[i], width, Info(items, i - 1))
    {
    }
  }

  /** Without any truthy info the lines come out as drawn. */
  lemma AnnotateNothing(lines: seq<string>, width: int, items: seq<string>)
    requires forall n :: 0 <= n < |items| ==> items[n] == ""
    ensures Annotate(lines, width, items) == lines
  {
    var r := Annotate(lines, width, items);
    forall i | 0 <= i < |lines| ensures r[i] == lines[i] {
      if 0 < i < |lines| - 1 {
        assert Info(items, i - 1) == "";
        assert r[i] == AnnotateLine(lines[i], width, "");
      }
    }
  }

  /** The `IndexError` fallback: the lines past the end of the list come out
      as drawn. */
  lemma AnnotatePastEnd(lines: seq<string>, width: int, items: seq<string>)
    ensures forall i :: |items| < i < |lines| - 1 ==> Annotate(lines, width, items)[i] == lines[i]
  {
    var r := Annotate(lines, width, items);
    forall i | |items| < i < |lines| - 1 ensures r[i] == lines[i] {
      assert Info(items, i - 1) == "";
      assert r[i] == AnnotateLine(lines[i], width, "");
    }
  }

  /** Annotating adds no character that is in neither the lines nor the
      infos, except blanks and the bar. */
  lemma AnnotateAvoids(lines: seq<string>, width: int, items: seq<string>, c: char)
    requires Avoids(lines, c) && Avoids(items, c) && c != ' ' && c != '|'
    ensures Avoids(Annotate(lines, width, items), c)
  {
    var r := Annotate(lines, width, items);
    forall i | 0 <= i < |r| ensures c !in r[i] {
      if 0 < i < |lines| - 1 {
        var info := Info(items, i - 1);
        AnnotateLineChars(lines[i], width, info, c);
        assert r[i] == AnnotateLine(lines[i], width, info);
      }
    }
  }

  /** `LookupModule.run(terms, sysinfo=...)`. The checks come in the order
      the plugin makes them: the type of `sysinfo`, then the presence of a
      first term, then whether that term has anything to say. On success
      the single result is every output line followed by a newline. */
  function Run(terms: seq<string>, sysinfo: SysInfo): (r: Result<seq<string>>)
    ensures r.Failure? <==> sysinfo.NotAList? || |terms| == 0 || !HasVisible(terms[0])
    ensures sysinfo.NotAList? ==> r == Failure(SysinfoNotList)
    ensures !sysinfo.NotAList? && |terms| == 0 ==> r == Failure(NoTerm)
    ensures !sysinfo.NotAList? && |terms| > 0 && !HasVisible(terms[0]) ==> r == Failure(NothingToSay)
    ensures r.Success? ==> |r.value| == 1
  {
    if sysinfo.NotAList? then Failure(SysinfoNotList)
    else if |terms| == 0 then Failure(NoTerm)
    else
      match Draw(terms[0])
      case Failure(e) => Failure(e)
      case Success(d) => Success([Terminated(Annotate(d.lines, d.width, Items(sysinfo)), '\n')])
  }

  /** A missing `sysinfo` acts as an empty list. */
  lemma RunAbsent(terms: seq<string>)
    ensures Run(terms, Absent) == Run(terms, Given([]))
  {
    assert Items(Absent) == Items(Given([]));
  }

  /** `row` shows `info` in a column at `col`: the line, blanks up to
      `col`, `" | "` there, then the info. */
  predicate InColumn(row: string, line: string, col: int, info: string) {
    && 0 <= |line| <= col
    && |row| == col + 3 + |info|
    && row[..|line|] == line
    && (forall j :: |line| <= j < col ==> row[j] == ' ')
    && row[col..col + 3] == " | "
    && row[col + 3..] == info
  }

  /** The annotations form one column: every annotated row shows its drawn
      line first and its info after a bar `" | "` at the drawing's width,
      which is past every drawn line. */
  lemma AnnotationColumn(text: string, items: seq<string>, i: nat)
    requires HasVisible(text)
    requires 0 < i < |Draw(text).value.lines| - 1 && Info(items, i - 1) != ""
    ensures InColumn(Annotate(Draw(text).value.lines, Draw(text).value.width, items)[i],
                     Draw(text).value.lines[i], Draw(text).value.width, items[i - 1])
  {
    var d := Draw(text).value;
    DrawLineShort(text, i);
    AnnotateShape(d.lines, d.width, items);
    AnnotatedPast(Annotate(d.lines, d.width, items)[i], d.lines[i], d.width, items[i - 1]);
  }

  /** Every drawn line is shorter than the drawing's width. */
  lemma DrawLineShort(text: string, i: nat)
    requires HasVisible(text) && i < |Draw(text).value.lines|
    ensures |Draw(text).value.lines[i]| < Draw(text).value.width
  {
    DrawFits(text);
  }

  /** When the line is shorter than the field, the bar sits at the field's
      width. */
  lemma AnnotatedPast(row: string, line: string, width: int, info: string)
    requires IsAnnotated(row, line, width, info) && |line| < width
    ensures InColumn(row, line, width, info)
  {
    assert Max(width, |line|) == width;
  }

  /** Reading the result back: split on newlines, it is the annotated
      drawing followed by the empty piece after the final newline, provided
      no info contains a newline itself. */
  lemma RunReadBack(terms: seq<string>, sysinfo: SysInfo)
    requires Run(terms, sysinfo).Success?
    requires Avoids(Items(sysinfo), '\n')
    ensures var d := Draw(terms[0]).value;
            Split(Run(terms, sysinfo).value[0], '\n') == Annotate(d.lines, d.width, Items(sysinfo)) + [""]
  {
    var d := Draw(terms[0]).value;
    var rows := Annotate(d.lines, d.width, Items(sysinfo));
    DrawAvoidsNewline(terms[0]);
    AnnotateAvoids(d.lines, d.width, Items(sysinfo), '\n');
    SplitTerminated(rows, '\n');
  }

  /** Without `sysinfo` the result is exactly the drawing, one line after
      another, each ended by a newline. */
  lemma RunPlain(terms: seq<string>)
    requires |terms| > 0 && HasVisible(terms[0])
    ensures Run(terms, Absent) == Success([Terminated(Draw(terms[0]).value.lines, '\n')])
    ensures Split(Run(terms, Absent).value[0], '\n') == Draw(terms[0]).value.lines + [""]
  {
    RunPlainText(terms);
    DrawAvoidsNewline(terms[0]);
    SplitTerminated(Draw(terms[0]).value.lines, '\n');
  }

  lemma RunPlainText(terms: seq<string>)
    requires |terms| > 0 && HasVisible(terms[0])
    ensures Run(terms, Absent) == Success([Terminated(Draw(terms[0]).value.lines, '\n')])
  {
    RunSuccess(terms, Absent);
    AnnotateNothing(Draw(terms[0]).value.lines, Draw(terms[0]).value.width, []);
  }

  lemma RunSuccess(terms: seq<string>, sysinfo: SysInfo)
    requires !sysinfo.NotAList? && |terms| > 0 && HasVisible(terms[0])
    ensures Run(terms, sysinfo) ==
            Success([Terminated(Annotate(Draw(terms[0]).value.lines, Draw(terms[0]).value.width, Items(sysinfo)), '\n')])
  {
  }
}
