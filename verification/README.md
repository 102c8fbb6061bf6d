# cowsay text layout, modelled in Dafny

This project models the text-layout pipeline of the two cowsay plugins. The
lookup plugin (`plugins/lookup/cowsay.py`) and the module plugin
(`plugins/modules/cowsay.py`) carry near-identical copies of it:

- `wrap_lines` cuts every line into consecutive chunks of at most 49
  characters.
- `generate_bubble` strips the lines of the text, drops the blank ones,
  wraps them and draws a speech bubble around them. The `/` and `\`
  connector rows appear only when there is more than one wrapped line.
- `generate_char` indents the fixed five-line cow figure by
  `max(int(w/2), 2)` spaces.
- `draw` rejects text without a visible character and puts the bubble over
  the figure. The lookup copy also reports the width, which is the longest
  line plus one.
- `LookupModule.run` writes the drawing out line by line. It puts the
  entries of the optional `sysinfo` list beside the lines between the first
  and the last, padding those lines to the drawing's width and adding
  `" | "` and the entry.

The project has four modules:

- `Text` (`text.dfy`) holds the Python string operations the pipeline relies
  on:
  - `str.split` and `"\n".join`, with their round trip;
  - `str.strip`;
  - `re.sub('\s', '', …)`, using the exact `str.isspace` character table;
  - `" " * n` and the left-aligned `"{:w}"` field;
  - `max(len(x) for x in xs)`;
  - the list filter `[x for x in xs if x]`.
- `Lookup` (`lookup.dfy`) is the lookup plugin's renderer, written as pure
  functions. Each function carries lemmas about lengths, contents and
  widths.
- `LookupRun` (`lookup_run.dfy`) models `LookupModule.run`, which composes
  the annotations.
- `CowsayModule` (`module_plugin.dfy`) is the module plugin's copy. It is
  written as methods whose loops follow the Python loops, and each method is
  proved equal to a pure definition:
  - `WrapLines` to `Lookup.WrapLinesAnyWidth`, for every integer width;
  - `StrippedLines` to `NonEmpty(StripAll(…))`, and `KeepNonEmpty` to
    `NonEmpty`;
  - `LongestLine` to `MaxLen`, failing on an empty list;
  - `FrameLines` to `Lookup.Frame`;
  - `GenerateBubble`, `GenerateChar` to the `Lookup` functions of the same
    name;
  - `Draw` to the lines of `Lookup.Draw`.

  So the module's drawing is line for line the lookup's drawing.

Three facts about the code fix the layout of the output:

- The `run` loop annotates output lines 1 to n - 2 with `sysinfo[0]`,
  `sysinfo[1]`, and so on. Line 0 is the bubble's top border. Line 1 is the
  `/` connector when there are several wrapped lines, and the only content
  row otherwise. The entries do not start at the figure.
- The last line, which is never annotated, is the figure's last line. The
  bubble's bottom border sits in the middle and can be annotated.
- A content row is `"< " + line + blanks + ">"`, which is text width + 4
  wide. Borders and connectors are text width + 3 wide.

Python exceptions become `Failure` values of one `Error` type:

| constructor | Python exception |
|---|---|
| `EmptyMax` | `max()` of an empty list |
| `ZeroStep` | `range` with step 0 |
| `NothingToSay` | 'Pass something meaningful to cowsay' |
| `SysinfoNotList` | 'sysinfo should be a list' |
| `NoTerm` | `terms[0]` of an empty term list |

## Model

| member | source | states |
|---|---|---|
| Lookup.Chunks | plugins/lookup/cowsay.py:91-93 | the slices of one line number ceil(len/width); each holds 1 to `width` characters, every one but the last exactly `width`; no character enters that was not in the line |
| Lookup.CeilDivBounds | plugins/lookup/cowsay.py:92 | the chunk count c is the least with c * width >= len, i.e. (c - 1) * width < len <= c * width |
| Lookup.ChunksConcat | plugins/lookup/cowsay.py:91-93 | concatenating the chunks of a line gives back the line exactly |
| Lookup.ChunkSlice | plugins/lookup/cowsay.py:92 | chunk k is `line[k*width : min(k*width + width, len)]` and starts inside the line |
| Lookup.WrapLines | plugins/lookup/cowsay.py:87-95 | every wrapped line holds 1 to `width` characters; the result is empty exactly when every input line is empty |
| Lookup.WrapLinesConcat | plugins/lookup/cowsay.py:87-95 | the wrapped lines concatenate to the input lines' concatenation, so no character is lost, added or reordered |
| Lookup.WrapLinesAppend | plugins/lookup/cowsay.py:90-94 | wrapping preserves input order: wrapping xs + ys is wrapping xs followed by wrapping ys |
| Lookup.WrapLinesShort | plugins/lookup/cowsay.py:87-95 | lines already 1 to `width` characters long pass through unchanged |
| Lookup.WrapLinesAvoids | plugins/lookup/cowsay.py:87-95 | a character absent from every input line is absent from every wrapped line |
| Lookup.WrapLinesAnyWidth | plugins/lookup/cowsay.py:87-95 | for any integer width: a step of 0 raises as soon as there is a line, a negative one gives no line, a positive one keeps the text and bounds every chunk |
| Lookup.TextLines | plugins/lookup/cowsay.py:100-101 | the stripped non-blank lines have a visible character and no whitespace at either end, contain no newline, and exist exactly when the text has a visible character |
| Lookup.TextLinesOne | plugins/lookup/cowsay.py:100-101 | a text without a newline gives its stripped self as its only line when it has a visible character, and no line otherwise |
| Lookup.TextLinesJoin | plugins/lookup/cowsay.py:100-101 | the lines of `a + "\n" + b` are the lines of `a` followed by the lines of `b`; with `TextLinesOne` this fixes every kept line, its content and its order |
| Lookup.StrippedExist | plugins/lookup/cowsay.py:100-101 | some stripped line is non-blank exactly when the text has a visible character |
| Lookup.BubbleText | plugins/lookup/cowsay.py:100-101 | the wrapped lines hold 1 to 49 characters each, contain no newline, exist exactly when the text has a visible character, and concatenate to the stripped lines |
| Lookup.BubbleTextWidth | plugins/lookup/cowsay.py:102 | the bubble's text width lies between 1 and 49 |
| Lookup.ContentRowShape | plugins/lookup/cowsay.py:108 | a content row is `"< "`, the line, blanks, `">"`, exactly text width + 4 wide, holding only the line's characters and `<`, blank, `>` |
| Lookup.BorderShape | plugins/lookup/cowsay.py:104 | a border is a blank then fill characters, text width + 3 wide |
| Lookup.ConnectorShape | plugins/lookup/cowsay.py:106 | a connector is a blank, its left mark, blanks, its right mark, text width + 3 wide |
| Lookup.Frame | plugins/lookup/cowsay.py:103-111 | the bubble has n + 2 rows for one line and n + 4 rows for more |
| Lookup.FrameShape | plugins/lookup/cowsay.py:103-111 | the bubble is the `_` border, the `/ \` connector only when there are several lines, one content row per wrapped line in order, the `\ /` connector only when there are several lines, then the `-` border |
| Lookup.FrameWidth | plugins/lookup/cowsay.py:102-111 | the bubble's widest row is its text width + 4 |
| Lookup.GenerateBubble | plugins/lookup/cowsay.py:98-112 | it succeeds exactly when the text has a visible character; otherwise `max` of an empty list raises; a bubble has at least 3 rows |
| Lookup.FigureLines | plugins/lookup/cowsay.py:118-119 | splitting the figure on newlines and dropping empty pieces gives exactly its five lines |
| Lookup.CowIsJoin | plugins/lookup/cowsay.py:78-84 | the raw figure is its five lines joined by newlines, with a newline before and after |
| Lookup.TruncHalf | plugins/lookup/cowsay.py:121 | `int(w/2)` truncates toward zero for negative widths as well as positive ones |
| Lookup.Indent | plugins/lookup/cowsay.py:121 | the indent is at least 2; it is 2 below width 4, otherwise the largest n with 2n <= width |
| Lookup.GenerateChar | plugins/lookup/cowsay.py:115-122 | five lines, each the same number of blanks followed by the matching figure line |
| Lookup.FigureWidth | plugins/lookup/cowsay.py:115-122 | the figure's widest line is its indent + 20 |
| Lookup.Draw | plugins/lookup/cowsay.py:125-128 | drawing fails, with the 'meaningful' error, exactly when the text has no visible character |
| Lookup.DrawLines | plugins/lookup/cowsay.py:129-131 | the drawing is the bubble followed by the figure indented for the bubble's text width, which is the widest bubble row minus 4 |
| Lookup.DrawFits | plugins/lookup/cowsay.py:132-133 | every drawn line is shorter than the reported width, and some line is exactly one shorter |
| Lookup.DrawWidth | plugins/lookup/cowsay.py:130-133 | the reported width is max(text width + 4, indent + 20) + 1 |
| Lookup.DrawAvoidsNewline | plugins/lookup/cowsay.py:125-133 | no drawn line contains a newline |
| LookupRun.RunAbsent | plugins/lookup/cowsay.py:143-146 | a missing `sysinfo` gives the same result as an empty list, failures included |
| LookupRun.AnnotatePastEnd | plugins/lookup/cowsay.py:159-162 | middle lines past the end of the `sysinfo` list come out as drawn: the `IndexError` reads as a falsy entry |
| LookupRun.Annotate | plugins/lookup/cowsay.py:154-166 | the loop emits one output line per drawn line; `AnnotateShape` states what each one is |
| LookupRun.AnnotateLine | plugins/lookup/cowsay.py:163-166 | with a falsy info the line is unchanged; otherwise it is the line, blanks up to the width (none if the line is wider), a blank, a bar and a blank, the info |
| LookupRun.AnnotateShape | plugins/lookup/cowsay.py:154-166 | the first and last lines stay as drawn; middle line i stays as drawn when `sysinfo[i-1]` is missing or falsy, and otherwise shows that entry beside it |
| LookupRun.AnnotateNothing | plugins/lookup/cowsay.py:154-166 | with no truthy entry every line comes out as drawn |
| LookupRun.AnnotateAvoids | plugins/lookup/cowsay.py:163-166 | annotating adds no character besides blanks, the bar and those of the entries |
| LookupRun.Run | plugins/lookup/cowsay.py:139-168 | a non-list `sysinfo` fails first, then a missing term, then a term without a visible character; nothing else fails, and success is a one-element list |
| LookupRun.AnnotationColumn | plugins/lookup/cowsay.py:153-164 | every annotated line shows its drawn line, blanks, and the bar at exactly the drawing's width, so the entries form one column past the drawing |
| LookupRun.RunReadBack | plugins/lookup/cowsay.py:154-168 | when no `sysinfo` entry contains a newline, splitting the result on newlines gives the annotated lines and one empty piece, so every line ends with a newline and none is split |
| LookupRun.RunPlain | plugins/lookup/cowsay.py:143-168 | without `sysinfo` the result is the drawing, each line followed by a newline |
| Text.Split | plugins/lookup/cowsay.py:100 | `s.split(sep)` gives at least one piece and no piece contains the separator |
| Text.SplitAppend | plugins/lookup/cowsay.py:100 | the pieces of `a + sep + b` are the pieces of `a` followed by the pieces of `b` |
| Text.JoinSplit | plugins/lookup/cowsay.py:100 | joining the pieces of `s.split(sep)` with `sep` gives back `s` |
| Text.SplitJoin | plugins/lookup/cowsay.py:118 | splitting the join of separator-free pieces gives back the pieces |
| Text.SplitTerminated | plugins/lookup/cowsay.py:157-166 | splitting lines that each end in a newline gives the lines and one empty piece |
| Text.Strip | plugins/lookup/cowsay.py:100 | the stripped line has no whitespace at either end, and it is empty exactly when the line has no visible character |
| Text.StripSlice | plugins/lookup/cowsay.py:100 | the stripped line is the slice of the line between its leading and trailing whitespace, and only whitespace follows it |
| Text.RemoveSpace | plugins/lookup/cowsay.py:127 | removing whitespace keeps exactly the non-whitespace characters, leaving nothing exactly when the text has no visible character |
| Text.Repeat | plugins/lookup/cowsay.py:104-111 | `c * n` is n copies of c, and empty for n <= 0 |
| Text.PadRight | plugins/lookup/cowsay.py:164 | a `{:w}` field is the string followed by blanks up to `w`, never truncated |
| Text.SplitVisible | plugins/lookup/cowsay.py:100 | a text has a visible character exactly when one of its lines does |
| Text.MaxLen | plugins/lookup/cowsay.py:102 | `max(len(x) for x in xs)` bounds every length and is attained |
| Text.NonEmpty | plugins/lookup/cowsay.py:101 | the filter keeps only non-empty strings, each from the input, and keeps none exactly when all are empty; of a single string it keeps the string exactly when it is non-empty, which with `NonEmptyAppend` fixes the filter |
| Text.StripAll | plugins/lookup/cowsay.py:100 | `[line.strip() for line in pieces]` strips every piece in place, keeping the count |
| Text.StripAllAppend | plugins/lookup/cowsay.py:100 | stripping piece by piece distributes over list concatenation |
| Text.NonEmptyAppend | plugins/lookup/cowsay.py:119 | the filter keeps input order |
| CowsayModule.WrapLines | plugins/modules/cowsay.py:67-74 | the nested loops compute the lookup plugin's wrapping, including its errors for a step of 0 |
| CowsayModule.LongestLine | plugins/modules/cowsay.py:80 | the running maximum is `max` of the lengths; an empty list raises |
| CowsayModule.GenerateBubble | plugins/modules/cowsay.py:77-90 | the loop-built bubble equals the lookup plugin's bubble, failure included |
| CowsayModule.FrameLines | plugins/modules/cowsay.py:81-89 | appending the border, connectors and rows as Python does builds the framed bubble |
| CowsayModule.GenerateChar | plugins/modules/cowsay.py:93-99 | the loop-built figure equals the lookup plugin's figure |
| CowsayModule.Draw | plugins/modules/cowsay.py:102-108 | it fails exactly when the text has no visible character; otherwise its lines are the lookup plugin's drawing |
| CowsayModule.RunModule | plugins/modules/cowsay.py:117-139 | check mode reports nothing; otherwise the module reports the lookup plugin's drawing or its error; `changed` is always false |

## Left out

- `plugins/callback/status.py` and `plugins/modules/welcome.py` are not part of this model. The first only prints framework objects, and the second returns a constant.
- The hosting framework is left out: `AnsibleModule`, `LookupBase`, `Display`, `exit_json` and the argument specification. `RunModule` takes the `text` option and the check-mode flag as parameters.
- Plugin inputs are modelled as strings. The lookup term and the module's `text` are strings, so `str(text)` is the identity and the `TypeError` a non-string would raise in `re.sub` is not modelled.
- `sysinfo` entries are modelled by their text, and Python truthiness becomes "non-empty". Entries of other types, such as numbers or `None`, are not modelled.
- `sysinfo` that is not a list is one case, `NotAList`. Its contents are not modelled.
- `int(text_width/2)` goes through a float. It is modelled as exact truncation toward zero, which is what the float gives for widths this small.
- `len` counts code points. Unicode display width is not modelled.
- The `DOCUMENTATION`, `EXAMPLES` and `RETURN` strings are not modelled. Their check-mode text claims `changed = True`, but the code returns `changed: False`. `RunModule` follows the code.
- Lookup.WrapLines: requires a positive width, which is what the renderer always passes (49). Python's `wrap_lines` accepts any `max_width`; `Lookup.WrapLinesAnyWidth` models zero and negative widths for both copies.
