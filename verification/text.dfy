/**
 The string primitives the cowsay renderer is built from, stated over
 `seq<char>`: whitespace, splitting on a separator and joining back,
 stripping, whitespace removal, repetition, right-padding and the longest
 line of a list. Each one models the Python built-in of the same purpose
 (`str.isspace` and the regular-expression class `\s`, `str.split`,
 `str.strip`, `re.sub`, `c * n`, `"{:n}".format`, `max`).
 */
module Text {

  /** A whitespace character in the sense of Python's `str.isspace`, which is
      also the set the regular-expression class `\s` matches on `str` patterns.
      One predicate serves both, so stripping and the emptiness check agree. */
  predicate IsSpace(c: char) {
    || ('\t' <= c <= '\r')
    || ('\U{1C}' <= c <= '\U{1F}')
    || c == ' '
    || c == '\U{85}'
    || c == '\U{A0}'
    || c == '\U{1680}'
    || ('\U{2000}' <= c <= '\U{200A}')
    || c == '\U{2028}'
    || c == '\U{2029}'
    || c == '\U{202F}'
    || c == '\U{205F}'
    || c == '\U{3000}'
  }

  /** True iff `s` holds at least one non-whitespace character. */
  predicate HasVisible(s: string) {
    exists i :: 0 <= i < |s| && !IsSpace(s[i])
  }

  /** The larger of `a` and `b`. */
  function Max(a: int, b: int): (m: int)
    ensures m >= a && m >= b && (m == a || m == b)
  {
    if a >= b then a else b
  }

  /** The smaller of `a` and `b`. */
  function Min(a: int, b: int): (m: int)
    ensures m <= a && m <= b && (m == a || m == b)
  {
    if a <= b then a else b
  }

  /* ---------------------------------------------------------------------- */
  /* Joining and splitting                                                   */
  /* ---------------------------------------------------------------------- */

  /** `sep.join(xs)`: the pieces with one separator between neighbours. */
  function Join(xs: seq<string>, sep: char): (r: string) {
    if |xs| == 0 then ""
    else if |xs| == 1 then xs[0]
    else xs[0] + [sep] + Join(xs[1..], sep)
  }

  lemma JoinCons(x: string, ys: seq<string>, sep: char)
    requires |ys| > 0
    ensures Join([x] + ys, sep) == x + [sep] + Join(ys, sep)
  {
    assert ([x] + ys)[1..] == ys;
  }

  /** Prepending characters to the first piece prepends them to the join. */
  lemma {:induction false} JoinConsFirst(pre: string, x: string, ys: seq<string>, sep: char)
    ensures Join([pre + x] + ys, sep) == pre + Join([x] + ys, sep)
  {
    var l := [pre + x] + ys;
    var m := [x] + ys;
    assert l[1..] == ys && m[1..] == ys;
    if |ys| == 0 {
    } else {
      assert Join(l, sep) == (pre + x) + [sep] + Join(ys, sep);
      assert Join(m, sep) == x + [sep] + Join(ys, sep);
    }
  }

  /** `s.split(sep)`: the maximal separator-free pieces of `s`, in order.
      Like Python, the empty string splits into one empty piece and every
      separator starts a new piece. */
  function Split(s: string, sep: char): (r: seq<string>)
    ensures |r| >= 1
    ensures forall k :: 0 <= k < |r| ==> sep !in r[k]
    decreases |s|
  {
    if |s| == 0 then [""]
    else
      var rest := Split(s[1..], sep);
      if s[0] == sep then
        var r := [""] + rest;
        assert forall k :: 1 <= k < |r| ==> r[k] == rest[k - 1];
        r
      else
        var r := [[s[0]] + rest[0]] + rest[1..];
        assert forall k :: 1 <= k < |r| ==> r[k] == rest[k];
        assert forall c :: c in [s[0]] + rest[0] ==> c == s[0] || c in rest[0];
        r
  }

  /** The pieces join back to the string: no character is lost or added. */
  lemma {:induction false} JoinSplit(s: string, sep: char)
    ensures Join(Split(s, sep), sep) == s
    decreases |s|
  {
    if |s| > 0 {
      var rest := Split(s[1..], sep);
      JoinSplit(s[1..], sep);
      var r := Split(s, sep);
      if s[0] == sep {
        assert r == [""] + rest;
        assert r[1..] == rest;
        assert Join(r, sep) == [sep] + Join(rest, sep);
        assert s == [s[0]] + s[1..];
      } else {
        assert r == [[s[0]] + rest[0]] + rest[1..];
        assert rest == [rest[0]] + rest[1..];
        JoinConsFirst([s[0]], rest[0], rest[1..], sep);
        assert s == [s[0]] + s[1..];
      }
    }
  }

  /** `"".join(x + sep for x in xs)`: every piece followed by the separator. */
  function Terminated(xs: seq<string>, sep: char): (r: string) {
    if |xs| == 0 then "" else xs[0] + [sep] + Terminated(xs[1..], sep)
  }

  /** Terminating every piece is joining them with one more, empty, piece. */
  lemma {:induction false} TerminatedIsJoin(xs: seq<string>, sep: char)
    ensures Terminated(xs, sep) == Join(xs + [""], sep)
    decreases |xs|
  {
    if |xs| > 0 {
      TerminatedIsJoin(xs[1..], sep);
      assert xs + [""] == [xs[0]] + (xs[1..] + [""]);
      JoinCons(xs[0], xs[1..] + [""], sep);
    }
  }

  /** Splitting a terminated text gives its pieces back, followed by the
      empty piece after the last separator. */
  lemma SplitTerminated(xs: seq<string>, sep: char)
    requires forall k :: 0 <= k < |xs| ==> sep !in xs[k]
    ensures Split(Terminated(xs, sep), sep) == xs + [""]
  {
    TerminatedIsJoin(xs, sep);
    var ys := xs + [""];
    assert forall k :: 0 <= k < |ys| ==> sep !in ys[k] by {
      forall k | 0 <= k < |ys| ensures sep !in ys[k] {
        if k < |xs| { assert ys[k] == xs[k]; }
      }
    }
    SplitJoin(ys, sep);
  }

  /** A separator splits the text in two: the pieces of the text before it,
      then the pieces of the text after it. */
  lemma {:induction false} SplitAppend(a: string, b: string, sep: char)
    ensures Split(a + [sep] + b, sep) == Split(a, sep) + Split(b, sep)
    decreases |a|
  {
    var s := a + [sep] + b;
    if |a| == 0 {
      assert s[0] == sep && s[1..] == b;
    } else {
      assert s[0] == a[0] && s[1..] == a[1..] + [sep] + b;
      SplitAppend(a[1..], b, sep);
      var head := Split(a[1..], sep);
      var rest := head + Split(b, sep);
      if a[0] != sep {
        assert rest[0] == head[0];
        assert rest[1..] == head[1..] + Split(b, sep);
      }
    }
  }

  /** Splitting undoes joining, for pieces that do not contain the separator:
      together with `JoinSplit` the two are inverse. */
  lemma {:induction false} SplitJoin(xs: seq<string>, sep: char)
    requires |xs| >= 1
    requires forall k :: 0 <= k < |xs| ==> sep !in xs[k]
    ensures Split(Join(xs, sep), sep) == xs
    decreases |xs|, |xs[0]|
  {
    if |xs| == 1 {
      SplitFree(xs[0], sep);
    } else if |xs[0]| == 0 {
      var j := Join(xs, sep);
      assert j == [sep] + Join(xs[1..], sep);
      assert j[1..] == Join(xs[1..], sep);
      SplitJoin(xs[1..], sep);
      assert xs == [""] + xs[1..];
    } else {
      var ys := [xs[0][1..]] + xs[1..];
      assert ys[1..] == xs[1..];
      var j := Join(xs, sep);
      assert xs[0] == [xs[0][0]] + xs[0][1..];
      JoinConsFirst([xs[0][0]], xs[0][1..], xs[1..], sep);
      assert xs == [[xs[0][0]] + xs[0][1..]] + xs[1..];
      assert j == [xs[0][0]] + Join(ys, sep);
      assert j[1..] == Join(ys, sep);
      assert xs[0][0] != sep by { assert xs[0][0] in xs[0]; }
      forall k | 0 <= k < |ys| ensures sep !in ys[k] {
        if k == 0 {
          assert forall c :: c in xs[0][1..] ==> c in xs[0];
        } else {
          assert ys[k] == xs[k];
        }
      }
      SplitJoin(ys, sep);
    }
  }

  /** A string without the separator is a single piece. */
  lemma {:induction false} SplitFree(s: string, sep: char)
    requires sep !in s
    ensures Split(s, sep) == [s]
    decreases |s|
  {
    if |s| > 0 {
      assert forall c :: c in s[1..] ==> c in s;
      SplitFree(s[1..], sep);
      assert s == [s[0]] + s[1..];
    }
  }

  /** With a whitespace separator, a join has a visible character iff one of
      its pieces has. */
  lemma {:induction false} JoinVisible(xs: seq<string>, sep: char)
    requires IsSpace(sep)
    ensures HasVisible(Join(xs, sep)) <==> exists k :: 0 <= k < |xs| && HasVisible(xs[k])
    decreases |xs|
  {
    if |xs| > 1 {
      var j := Join(xs, sep);
      var tail := Join(xs[1..], sep);
      assert j == xs[0] + [sep] + tail;
      JoinVisible(xs[1..], sep);
      if HasVisible(j) {
        var i :| 0 <= i < |j| && !IsSpace(j[i]);
        if i < |xs[0]| {
          assert xs[0][i] == j[i];
        } else {
          assert i > |xs[0]|;
          assert tail[i - |xs[0]| - 1] == j[i];
          var k :| 0 <= k < |xs[1..]| && HasVisible(xs[1..][k]);
          assert xs[k + 1] == xs[1..][k];
        }
      }
      if exists k :: 0 <= k < |xs| && HasVisible(xs[k]) {
        var k :| 0 <= k < |xs| && HasVisible(xs[k]);
        if k == 0 {
          var i :| 0 <= i < |xs[0]| && !IsSpace(xs[0][i]);
          assert j[i] == xs[0][i];
        } else {
          assert xs[1..][k - 1] == xs[k];
          var i :| 0 <= i < |tail| && !IsSpace(tail[i]);
          assert j[|xs[0]| + 1 + i] == tail[i];
        }
      }
    }
  }

  /** A piece of a string without visible characters has none either. */
  lemma SplitInvisible(s: string, sep: char, k: nat)
    requires IsSpace(sep) && !HasVisible(s) && k < |Split(s, sep)|
    ensures !HasVisible(Split(s, sep)[k])
  {
    SplitVisible(s, sep);
  }

  /** Splitting on a whitespace character keeps every visible character in
      some piece. */
  lemma SplitVisible(s: string, sep: char)
    requires IsSpace(sep)
    ensures HasVisible(s) <==> exists k :: 0 <= k < |Split(s, sep)| && HasVisible(Split(s, sep)[k])
  {
    var xs := Split(s, sep);
    JoinSplit(s, sep);
    JoinVisible(xs, sep);
    if HasVisible(s) {
      assert HasVisible(Join(xs, sep));
      var k :| 0 <= k < |xs| && HasVisible(xs[k]);
      assert 0 <= k < |Split(s, sep)| && HasVisible(Split(s, sep)[k]);
      assert exists k :: 0 <= k < |Split(s, sep)| && HasVisible(Split(s, sep)[k]);
    } else {
      assert !HasVisible(Join(xs, sep));
      assert forall k :: 0 <= k < |xs| ==> !HasVisible(xs[k]);
    }
  }

  /* ---------------------------------------------------------------------- */
  /* Stripping                                                               */
  /* ---------------------------------------------------------------------- */

  /** Number of leading whitespace characters of `s`. */
  function LeadingSpace(s: string): (n: nat)
    ensures n <= |s|
    ensures forall i :: 0 <= i < n ==> IsSpace(s[i])
    ensures n < |s| ==> !IsSpace(s[n])
  {
    if |s| == 0 || !IsSpace(s[0]) then 0 else 1 + LeadingSpace(s[1..])
  }

  /** Number of trailing whitespace characters of `s`. */
  function TrailingSpace(s: string): (n: nat)
    ensures n <= |s|
    ensures forall i :: |s| - n <= i < |s| ==> IsSpace(s[i])
    ensures n < |s| ==> !IsSpace(s[|s| - n - 1])
  {
    if |s| == 0 || !IsSpace(s[|s| - 1]) then 0 else 1 + TrailingSpace(s[..|s| - 1])
  }

  /** `s.strip()`: the middle of `s` between its leading and trailing
      whitespace. Its own ends are not whitespace, and it is empty exactly
      when `s` has no visible character; `StripSlice` says where it lies in
      `s`. */
  function Strip(s: string): (r: string)
    ensures |r| > 0 ==> !IsSpace(r[0]) && !IsSpace(r[|r| - 1])
    ensures |r| == 0 <==> !HasVisible(s)
  {
    var lo := LeadingSpace(s);
    var mid := s[lo..];
    var r := mid[..|mid| - TrailingSpace(mid)];
    assert |r| > 0 ==> r[0] == s[lo];
    r
  }

  /** The stripped string is the slice of `s` after its leading whitespace,
      and everything after it is whitespace too. */
  lemma StripSlice(s: string)
    ensures LeadingSpace(s) + |Strip(s)| <= |s|
    ensures Strip(s) == s[LeadingSpace(s)..LeadingSpace(s) + |Strip(s)|]
    ensures forall i :: LeadingSpace(s) + |Strip(s)| <= i < |s| ==> IsSpace(s[i])
  {
    var lo := LeadingSpace(s);
    var mid := s[lo..];
    assert Strip(s) == mid[..|mid| - TrailingSpace(mid)];
    StripTail(mid, lo, s);
  }

  /** The part of `s` after the stripped middle is the trailing whitespace
      of `mid`, the part after the leading whitespace. */
  lemma StripTail(mid: string, lo: nat, s: string)
    requires lo <= |s| && mid == s[lo..]
    ensures var r := mid[..|mid| - TrailingSpace(mid)];
            && r == s[lo..lo + |r|]
            && forall i :: lo + |r| <= i < |s| ==> IsSpace(s[i])
  {
    var r := mid[..|mid| - TrailingSpace(mid)];
    forall i | lo + |r| <= i < |s| ensures IsSpace(s[i]) {
      assert s[i] == mid[i - lo];
    }
  }

  /** Stripping a string without `sep` gives a string without `sep`. */
  lemma StripKeepsAbsent(s: string, sep: char)
    requires sep !in s
    ensures sep !in Strip(s)
  {
    var r := Strip(s);
    var lo := LeadingSpace(s);
    StripSlice(s);
    forall i | 0 <= i < |r| ensures r[i] != sep {
      assert r[i] == s[lo + i];
    }
  }

  /* ---------------------------------------------------------------------- */
  /* Whitespace removal, repetition, padding                                 */
  /* ---------------------------------------------------------------------- */

  /** `re.sub('\s', '', s)`: `s` with every whitespace character deleted.
      It keeps exactly the visible characters, so it is empty iff `s` has
      none. */
  function RemoveSpace(s: string): (r: string)
    ensures forall c :: c in r <==> c in s && !IsSpace(c)
    ensures |r| == 0 <==> !HasVisible(s)
  {
    if |s| == 0 then ""
    else
      var rest := RemoveSpace(s[1..]);
      assert forall c :: c in s <==> c == s[0] || c in s[1..];
      assert HasVisible(s) <==> !IsSpace(s[0]) || HasVisible(s[1..]) by {
        if HasVisible(s[1..]) {
          var i :| 0 <= i < |s[1..]| && !IsSpace(s[1..][i]);
          assert s[i + 1] == s[1..][i];
        }
        if HasVisible(s) && IsSpace(s[0]) {
          var i :| 0 <= i < |s| && !IsSpace(s[i]);
          assert s[1..][i - 1] == s[i];
        }
      }
      if IsSpace(s[0]) then rest else [s[0]] + rest
  }

  /** `[c] * n` in Python: `n` copies of `c`, nothing for `n <= 0`. */
  function Repeat(c: char, n: int): (r: string)
    ensures |r| == Max(n, 0)
    ensures forall i :: 0 <= i < |r| ==> r[i] == c
    decreases Max(n, 0)
  {
    if n <= 0 then "" else [c] + Repeat(c, n - 1)
  }

  /** `"{0:{1}}".format(s, width)` for a string: `s` left-aligned in a field of
      `width` characters, filled with spaces, never truncated. */
  function PadRight(s: string, width: int): (r: string)
    ensures |r| == Max(width, |s|)
    ensures r[..|s|] == s
    ensures forall i :: |s| <= i < |r| ==> r[i] == ' '
  {
    s + Repeat(' ', width - |s|)
  }

  /* ---------------------------------------------------------------------- */
  /* Lists of lines                                                          */
  /* ---------------------------------------------------------------------- */

  /** `max(len(x) for x in xs)`: the length of a longest element. Python
      raises on an empty list; callers handle that case before calling. */
  function MaxLen(xs: seq<string>): (m: nat)
    requires |xs| > 0
    ensures forall k :: 0 <= k < |xs| ==> |xs[k]| <= m
    ensures exists k :: 0 <= k < |xs| && |xs[k]| == m
  {
    if |xs| == 1 then |xs[0]|
    else
      var rest := MaxLen(xs[1..]);
      assert forall k :: 1 <= k < |xs| ==> xs[k] == xs[1..][k - 1];
      if |xs[0]| >= rest then |xs[0]| else rest
  }

  /** The upper-bound-and-witness characterisation pins `MaxLen` down. */
  lemma MaxLenIs(xs: seq<string>, m: int)
    requires |xs| > 0
    requires forall k :: 0 <= k < |xs| ==> |xs[k]| <= m
    requires exists k :: 0 <= k < |xs| && |xs[k]| == m
    ensures MaxLen(xs) == m
  {
  }

  /** The longest line of two lists together is the longer of their longest. */
  lemma MaxLenAppend(xs: seq<string>, ys: seq<string>)
    requires |xs| > 0 && |ys| > 0
    ensures MaxLen(xs + ys) == Max(MaxLen(xs), MaxLen(ys))
  {
    var m := Max(MaxLen(xs), MaxLen(ys));
    var zs := xs + ys;
    forall k | 0 <= k < |zs| ensures |zs[k]| <= m {
      if k >= |xs| { assert zs[k] == ys[k - |xs|]; }
    }
    if MaxLen(xs) >= MaxLen(ys) {
      var k :| 0 <= k < |xs| && |xs[k]| == MaxLen(xs);
      assert zs[k] == xs[k];
    } else {
      var k :| 0 <= k < |ys| && |ys[k]| == MaxLen(ys);
      assert zs[|xs| + k] == ys[k];
    }
    MaxLenIs(zs, m);
  }

  /** The concatenation of all strings of `xs`, in order. */
  function Concat(xs: seq<string>): (r: string) {
    if |xs| == 0 then "" else xs[0] + Concat(xs[1..])
  }

  lemma {:induction false} ConcatAppend(xs: seq<string>, ys: seq<string>)
    ensures Concat(xs + ys) == Concat(xs) + Concat(ys)
    decreases |xs|
  {
    if |xs| > 0 {
      assert (xs + ys)[1..] == xs[1..] + ys;
      ConcatAppend(xs[1..], ys);
    } else {
      assert xs + ys == ys;
    }
  }

  /** `[x for x in xs if x]`: the non-empty strings of `xs`, in order. */
  function NonEmpty(xs: seq<string>): (r: seq<string>)
    ensures forall k :: 0 <= k < |r| ==> |r[k]| > 0
    ensures forall x :: x in r ==> x in xs
    ensures |r| == 0 <==> forall k :: 0 <= k < |xs| ==> xs[k] == ""
    ensures |xs| == 1 ==> r == (if xs[0] == "" then [] else xs)
  {
    if |xs| == 0 then []
    else
      var rest := NonEmpty(xs[1..]);
      assert forall x :: x in xs[1..] ==> x in xs;
      assert forall k :: 1 <= k < |xs| ==> xs[k] == xs[1..][k - 1];
      if xs[0] == "" then rest else [xs[0]] + rest
  }

  /** Filtering distributes over concatenation: it keeps the input order. */
  lemma {:induction false} NonEmptyAppend(xs: seq<string>, ys: seq<string>)
    ensures NonEmpty(xs + ys) == NonEmpty(xs) + NonEmpty(ys)
    decreases |xs|
  {
    if |xs| == 0 {
      assert xs + ys == ys;
    } else {
      assert (xs + ys)[1..] == xs[1..] + ys;
      NonEmptyAppend(xs[1..], ys);
    }
  }

  /** `[s.strip() for s in xs]`. */
  function StripAll(xs: seq<string>): (r: seq<string>)
    ensures |r| == |xs|
    ensures forall k :: 0 <= k < |xs| ==> r[k] == Strip(xs[k])
  {
    if |xs| == 0 then [] else [Strip(xs[0])] + StripAll(xs[1..])
  }

  /** Stripping a list piece by piece distributes over concatenation. */
  lemma {:induction false} StripAllAppend(xs: seq<string>, ys: seq<string>)
    ensures StripAll(xs + ys) == StripAll(xs) + StripAll(ys)
    decreases |xs|
  {
    if |xs| == 0 {
      assert xs + ys == ys;
    } else {
      assert (xs + ys)[0] == xs[0] && (xs + ys)[1..] == xs[1..] + ys;
      StripAllAppend(xs[1..], ys);
    }
  }
}
