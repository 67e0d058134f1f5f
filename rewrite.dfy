/** The three shapes of regular-expression replacement the markdown converter
    chains, each written out as the left-to-right scan that JavaScript's
    `String.prototype.replace` performs with that one pattern:

    - `AnchoredPass`: `/^M(.*$)/gm`, a line that begins with the marker `M`
      is replaced by `open + rest-of-line + close`;
    - `SpanPass`: `/D(.*?)D/g`, a delimiter, the shortest run of characters
      on the same line, and the delimiter again, replaced by
      `open + run + close`;
    - `LiteralPass`: `/P/g`, every non-overlapping occurrence of `P`
      replaced by a fixed string. */
module Rewrite {
  import opened Text

  // ---------------------------------------------------------------------------
  // Line-anchored replacement: /^M(.*$)/gm

  /** How one line fares under `/^M(.*$)/gm`. */
  function LineRewrite(line: string, marker: string, open: string, close: string): string {
    if StartsWith(line, marker) then open + line[|marker|..] + close else line
  }

  /** A rewritten line is still one line when the markup has no terminator. */
  lemma LineRewriteLineFree(line: string, marker: string, open: string, close: string)
    requires LineFree(line) && LineFree(open) && LineFree(close)
    ensures LineFree(LineRewrite(line, marker, open, close))
  {
    if StartsWith(line, marker) {
      PrefixLineFree(line, |marker|);
      LineFreeAppend(open, line[|marker|..]);
      LineFreeAppend(open + line[|marker|..], close);
    }
  }

  /** A line that starts with something other than `other`'s first
      character is left alone by `other`. */
  lemma LineRewriteMisses(line: string, other: string, open: string, close: string)
    requires line != [] && other != [] && line[0] != other[0]
    ensures LineRewrite(line, other, open, close) == line
  {
  }

  /** A rewritten line begins with its opening markup. */
  lemma LineRewriteHead(line: string, marker: string, open: string, close: string)
    requires StartsWith(line, marker) && open != []
    ensures var r := LineRewrite(line, marker, open, close); r != [] && r[0] == open[0]
  {
    var x := line[|marker|..];
    assert (open + x + close)[0] == open[0];
  }

  /** The scan: `atLineStart` says whether `^` holds at the current position
      (start of input, or just after a line terminator). A match consumes the
      marker and the rest of the line, but not the terminator. */
  function AnchoredPass(s: string, marker: string, open: string, close: string, atLineStart: bool): string
    requires marker != []
    decreases |s|
  {
    if atLineStart && StartsWith(s, marker) then
      var e := |marker| + LineEnd(s[|marker|..]);
      open + s[|marker|..e] + close + AnchoredPass(s[e..], marker, open, close, false)
    else if s == [] then []
    else [s[0]] + AnchoredPass(s[1..], marker, open, close, IsLineTerminator(s[0]))
  }

  lemma StartsWithLineFree(a: string, c: char, t: string, p: string)
    requires LineFree(p) && IsLineTerminator(c)
    ensures StartsWith(a + [c] + t, p) == StartsWith(a, p)
  {
    var s := a + [c] + t;
    assert s[|a|] == c;
    if StartsWith(a, p) {
      assert s[..|p|] == a[..|p|];
    }
  }

  /** Within one line, the scan is `LineRewrite` at a line start and the
      identity elsewhere. */
  lemma {:induction false} AnchoredOnLine(a: string, marker: string, open: string, close: string, atLineStart: bool)
    requires marker != [] && LineFree(a)
    ensures AnchoredPass(a, marker, open, close, atLineStart)
         == if atLineStart then LineRewrite(a, marker, open, close) else a
    decreases |a|
  {
    if atLineStart && StartsWith(a, marker) {
      var rest := a[|marker|..];
      LineEndSkips(rest, []);
      assert rest + [] == rest;
      assert a[|a|..] == [];
    } else if a != [] {
      AnchoredOnLine(a[1..], marker, open, close, false);
      assert a == [a[0]] + a[1..];
    }
  }

  lemma TerminatorNotMarker(c: char, t: string, marker: string)
    requires marker != [] && LineFree(marker) && IsLineTerminator(c)
    ensures !StartsWith([c] + t, marker)
  {
    assert !IsLineTerminator(marker[0]);
    assert ([c] + t)[0] == c;
  }

  /** One step of the anchored scan at a match. */
  lemma AnchoredMatchStep(s: string, marker: string, open: string, close: string)
    requires marker != [] && StartsWith(s, marker)
    ensures var e := |marker| + LineEnd(s[|marker|..]);
      AnchoredPass(s, marker, open, close, true)
      == open + s[|marker|..e] + close + AnchoredPass(s[e..], marker, open, close, false)
  {
  }

  /** One step of the anchored scan where no match starts. */
  lemma AnchoredCopyStep(s: string, marker: string, open: string, close: string, atLineStart: bool)
    requires marker != [] && s != [] && !(atLineStart && StartsWith(s, marker))
    ensures AnchoredPass(s, marker, open, close, atLineStart)
         == [s[0]] + AnchoredPass(s[1..], marker, open, close, IsLineTerminator(s[0]))
  {
  }

  /** `AnchoredMatchStep` with the rewritten text and the remainder named. */
  lemma AnchoredMatchAt(s: string, marker: string, open: string, close: string, e: nat, m: string, r: string)
    requires marker != [] && StartsWith(s, marker)
    requires e == |marker| + LineEnd(s[|marker|..]) && m == s[|marker|..e] && r == s[e..]
    ensures AnchoredPass(s, marker, open, close, true) == open + m + close + AnchoredPass(r, marker, open, close, false)
  {
    AnchoredMatchStep(s, marker, open, close);
  }

  /** `AnchoredCopyStep` with the copied character and the remainder named. */
  lemma AnchoredCopyAt(s: string, marker: string, open: string, close: string, atLineStart: bool, h: char, r: string)
    requires marker != [] && s != [] && !(atLineStart && StartsWith(s, marker))
    requires s[0] == h && s[1..] == r
    ensures AnchoredPass(s, marker, open, close, atLineStart)
         == [h] + AnchoredPass(r, marker, open, close, IsLineTerminator(h))
  {
    AnchoredCopyStep(s, marker, open, close, atLineStart);
  }

  /** Where the anchored rewrite of the first line ends when more lines
      follow it. */
  lemma AnchoredSplitCut(a: string, c: char, t: string, marker: string)
    requires marker != [] && |marker| <= |a| && LineFree(a) && IsLineTerminator(c)
    ensures var s := a + [c] + t; var m := |marker|;
      m + LineEnd(s[m..]) == |a| && s[m..|a|] == a[m..] && s[|a|..] == [c] + t
  {
    var s := a + [c] + t;
    var m := |marker|;
    assert s[m..] == a[m..] + [c] + t;
    PrefixLineFree(a, m);
    LineEndAt(a[m..], c, t);
  }

  /** A marker at the start of a line is rewritten up to the terminator and
      the scan resumes there. */
  lemma AnchoredSplitMatch(a: string, c: char, t: string, marker: string, open: string, close: string)
    requires marker != [] && LineFree(marker) && LineFree(a) && IsLineTerminator(c)
    requires StartsWith(a, marker)
    ensures AnchoredPass(a + [c] + t, marker, open, close, true)
         == LineRewrite(a, marker, open, close) + [c] + AnchoredPass(t, marker, open, close, true)
  {
    var s := a + [c] + t;
    var x := open + a[|marker|..] + close;
    var T := AnchoredPass(t, marker, open, close, true);
    calc {
      AnchoredPass(s, marker, open, close, true);
    == { StartsWithLineFree(a, c, t, marker);
         AnchoredSplitCut(a, c, t, marker);
         AnchoredMatchAt(s, marker, open, close, |a|, a[|marker|..], [c] + t); }
      x + AnchoredPass([c] + t, marker, open, close, false);
    == { AnchoredCopyAt([c] + t, marker, open, close, false, c, t); }
      x + ([c] + T);
    == { ConsAssoc(x, [c], T); }
      x + [c] + T;
    }
  }

  /** The scan never carries a match across a line terminator: a line, its
      terminator, and the rest are rewritten independently. */
  lemma {:induction false} AnchoredSplit(a: string, c: char, t: string, marker: string, open: string, close: string, atLineStart: bool)
    requires marker != [] && LineFree(marker) && LineFree(a) && IsLineTerminator(c)
    ensures AnchoredPass(a + [c] + t, marker, open, close, atLineStart)
         == AnchoredPass(a, marker, open, close, atLineStart) + [c] + AnchoredPass(t, marker, open, close, true)
    decreases |a|
  {
    var s := a + [c] + t;
    if a == [] {
      assert s == [c] + t && s[1..] == t;
      TerminatorNotMarker(c, t, marker);
    } else if atLineStart && StartsWith(a, marker) {
      AnchoredSplitMatch(a, c, t, marker, open, close);
      AnchoredOnLine(a, marker, open, close, true);
    } else {
      StartsWithLineFree(a, c, t, marker);
      assert s[0] == a[0] && s[1..] == a[1..] + [c] + t;
      AnchoredSplit(a[1..], c, t, marker, open, close, false);
    }
  }

  /** The anchored scan is the reference per-line rewrite: `f` is any line
      function that agrees with `LineRewrite` on lines. */
  lemma {:induction false} AnchoredPerLine(s: string, marker: string, open: string, close: string, f: string -> string)
    requires marker != [] && LineFree(marker)
    requires forall l :: LineFree(l) ==> f(l) == LineRewrite(l, marker, open, close)
    ensures AnchoredPass(s, marker, open, close, true) == PerLine(s, f)
    decreases |s|
  {
    var e := LineEnd(s);
    if e < |s| {
      SplitAt(s, e);
      AnchoredSplit(s[..e], s[e], s[e + 1..], marker, open, close, true);
      AnchoredOnLine(s[..e], marker, open, close, true);
      AnchoredPerLine(s[e + 1..], marker, open, close, f);
      PerLineCons(s[..e], s[e], s[e + 1..], f);
    } else {
      assert s[..e] == s;
      AnchoredOnLine(s, marker, open, close, true);
      PerLineOfLine(s, f);
    }
  }

  /** The anchored scan applied after a per-line rewrite `f` is the per-line
      rewrite by the composition `h`. */
  lemma AnchoredAfter(s: string, marker: string, open: string, close: string,
                      f: string -> string, g: string -> string, h: string -> string)
    requires marker != [] && LineFree(marker)
    requires forall l :: LineFree(l) ==> LineFree(f(l))
    requires forall l :: LineFree(l) ==> g(l) == LineRewrite(l, marker, open, close)
    requires forall l :: LineFree(l) ==> h(l) == g(f(l))
    ensures AnchoredPass(PerLine(s, f), marker, open, close, true) == PerLine(s, h)
  {
    AnchoredPerLine(PerLine(s, f), marker, open, close, g);
    PerLineCompose(s, f, g, h);
  }

  /** A scan whose lines all lack the marker copies its input. */
  lemma AnchoredIdentity(s: string, marker: string, open: string, close: string)
    requires marker != [] && LineFree(marker)
    requires EveryLine(s, l => !StartsWith(l, marker))
    ensures AnchoredPass(s, marker, open, close, true) == s
  {
    var f := l => LineRewrite(l, marker, open, close);
    AnchoredPerLine(s, marker, open, close, f);
    PerLineIdentity(s, f, l => !StartsWith(l, marker));
  }

  // ---------------------------------------------------------------------------
  // Shortest-match span replacement: /D(.*?)D/g

  /** Where the lazy `(.*?)` stops: the offset at which the closing
      delimiter begins, if one follows on the same line. */
  function FindClose(s: string, delim: string): (r: Option<nat>)
    requires delim != []
    ensures r.Some? ==> r.value + |delim| <= |s|
    decreases |s|
  {
    if StartsWith(s, delim) then Some(0)
    else if s == [] || IsLineTerminator(s[0]) then None
    else
      match FindClose(s[1..], delim)
      case None => None
      case Some(k) => Some(k + 1)
  }

  /** `FindClose` finds the least `k` at which the closing delimiter begins
      with no line terminator before it, and fails exactly when there is no
      such `k`: the shortest match of `(.*?)D`. */
  lemma {:induction false} FindCloseIsLeast(s: string, delim: string)
    requires delim != []
    ensures var r := FindClose(s, delim);
      r.Some? ==> (StartsWith(s[r.value..], delim) && LineFree(s[..r.value])
                   && forall k :: 0 <= k < r.value ==> !StartsWith(s[k..], delim))
    ensures FindClose(s, delim).None? ==>
      forall k :: 0 <= k <= |s| && LineFree(s[..k]) ==> !StartsWith(s[k..], delim)
  {
    FindCloseSound(s, delim);
    FindCloseComplete(s, delim);
  }

  lemma {:induction false} FindCloseSound(s: string, delim: string)
    requires delim != []
    ensures var r := FindClose(s, delim);
      r.Some? ==> (StartsWith(s[r.value..], delim) && LineFree(s[..r.value])
                   && forall k :: 0 <= k < r.value ==> !StartsWith(s[k..], delim))
    decreases |s|
  {
    if StartsWith(s, delim) {
      assert s[0..] == s && s[..0] == [];
    } else if s != [] && !IsLineTerminator(s[0]) && FindClose(s[1..], delim).Some? {
      var t := s[1..];
      var j := FindClose(t, delim).value;
      FindCloseSound(t, delim);
      assert s[j + 1..] == t[j..];
      assert s[..j + 1] == [s[0]] + t[..j];
      LineFreeUnit(s[0]);
      LineFreeAppend([s[0]], t[..j]);
      forall k | 0 <= k < j + 1 ensures !StartsWith(s[k..], delim) {
        if k == 0 {
          assert s[0..] == s;
        } else {
          assert s[k..] == t[k - 1..];
        }
      }
    }
  }

  lemma {:induction false} FindCloseComplete(s: string, delim: string)
    requires delim != []
    ensures FindClose(s, delim).None? ==>
      forall k :: 0 <= k <= |s| && LineFree(s[..k]) ==> !StartsWith(s[k..], delim)
    decreases |s|
  {
    if !StartsWith(s, delim) && s != [] && FindClose(s, delim).None? {
      assert s[0..] == s;
      if IsLineTerminator(s[0]) {
        forall k | 0 < k <= |s| ensures !LineFree(s[..k]) {
          assert s[..k][0] == s[0];
        }
      } else {
        var t := s[1..];
        FindCloseComplete(t, delim);
        forall k | 0 < k <= |s| && LineFree(s[..k]) ensures !StartsWith(s[k..], delim) {
          assert s[k..] == t[k - 1..];
          assert t[..k - 1] == s[..k][1..];
        }
      }
    }
  }

  /** The scan: at each position, try the delimiter and a shortest close on
      the same line; on success emit the wrapped run and continue after the
      closing delimiter, otherwise copy one character. */
  function SpanPass(s: string, delim: string, open: string, close: string): string
    requires delim != []
    decreases |s|
  {
    if s == [] then []
    else if StartsWith(s, delim) && FindClose(s[|delim|..], delim).Some? then
      var d := |delim|;
      var k := FindClose(s[d..], delim).value;
      open + s[d..d + k] + close + SpanPass(s[d + k + d..], delim, open, close)
    else [s[0]] + SpanPass(s[1..], delim, open, close)
  }

  /** One step of the span scan at a successful match. */
  lemma SpanMatchStep(s: string, delim: string, open: string, close: string, k: nat)
    requires delim != [] && StartsWith(s, delim) && FindClose(s[|delim|..], delim) == Some(k)
    ensures SpanPass(s, delim, open, close)
         == open + s[|delim|..|delim| + k] + close + SpanPass(s[|delim| + k + |delim|..], delim, open, close)
  {
  }

  /** One step of the span scan where no match starts. */
  lemma SpanCopyStep(s: string, delim: string, open: string, close: string)
    requires delim != [] && s != []
    requires !(StartsWith(s, delim) && FindClose(s[|delim|..], delim).Some?)
    ensures SpanPass(s, delim, open, close) == [s[0]] + SpanPass(s[1..], delim, open, close)
  {
  }

  /** On a line, the span scan yields a line, when the markup it inserts has
      no line terminator. */
  lemma {:induction false} SpanLineFree(s: string, delim: string, open: string, close: string)
    requires delim != [] && LineFree(s) && LineFree(open) && LineFree(close)
    ensures LineFree(SpanPass(s, delim, open, close))
    decreases |s|
  {
    var d := |delim|;
    if s == [] {
    } else if StartsWith(s, delim) && FindClose(s[d..], delim).Some? {
      var k := FindClose(s[d..], delim).value;
      var m := s[d..d + k];
      var r := s[d + k + d..];
      var R := SpanPass(r, delim, open, close);
      SpanMatchAt(s, delim, open, close, k, m, r);
      LineFreeSlice(s, d, d + k);
      LineFreeSlice(s, d + k + d, |s|);
      assert r == s[d + k + d..|s|];
      SpanLineFree(r, delim, open, close);
      LineFreeAppend(open, m);
      LineFreeAppend(open + m, close);
      LineFreeAppend(open + m + close, R);
    } else {
      var r := s[1..];
      var R := SpanPass(r, delim, open, close);
      SpanCopyAt(s, delim, open, close, s[0], r);
      LineFreeSlice(s, 1, |s|);
      assert r == s[1..|s|];
      SpanLineFree(r, delim, open, close);
      LineFreeUnit(s[0]);
      LineFreeAppend([s[0]], R);
    }
  }

  /** Characters before the first delimiter character are copied in order. */
  lemma {:induction false} SpanCopies(a: string, rest: string, delim: string, open: string, close: string)
    requires delim != [] && delim[0] !in a
    ensures SpanPass(a + rest, delim, open, close) == a + SpanPass(rest, delim, open, close)
    decreases |a|
  {
    if a == [] {
      assert a + rest == rest;
    } else {
      var s := a + rest;
      var R := SpanPass(rest, delim, open, close);
      assert s[0] == a[0] && s[1..] == a[1..] + rest;
      calc {
        SpanPass(s, delim, open, close);
      == { SpanCopyAt(s, delim, open, close, a[0], a[1..] + rest); }
        [a[0]] + SpanPass(a[1..] + rest, delim, open, close);
      == { SpanCopies(a[1..], rest, delim, open, close); }
        [a[0]] + (a[1..] + R);
      == { ConsAssoc([a[0]], a[1..], R); HeadTail(a); }
        a + R;
      }
    }
  }

  /** Text in which the delimiter never occurs is copied unchanged. */
  lemma {:induction false} SpanIdentity(s: string, delim: string, open: string, close: string)
    requires delim != [] && !Occurs(s, delim)
    ensures SpanPass(s, delim, open, close) == s
    decreases |s|
  {
    if s != [] {
      SpanCopyStep(s, delim, open, close);
      SpanIdentity(s[1..], delim, open, close);
    }
  }

  /** The lazy search stops at the first delimiter when none of its
      characters comes earlier on the line. */
  lemma {:induction false} FindCloseAfter(x: string, rest: string, delim: string)
    requires delim != [] && LineFree(x) && delim[0] !in x
    ensures FindClose(x + delim + rest, delim) == Some(|x|)
    decreases |x|
  {
    var u := x + delim + rest;
    if x == [] {
      assert u == delim + rest;
      assert u[..|delim|] == delim;
    } else {
      assert u[0] == x[0];
      assert u[1..] == x[1..] + delim + rest;
      FindCloseAfter(x[1..], rest, delim);
    }
  }

  /** With no delimiter character ahead, the lazy search fails. */
  lemma {:induction false} FindCloseAbsent(s: string, delim: string)
    requires delim != [] && delim[0] !in s
    ensures FindClose(s, delim).None?
    decreases |s|
  {
    if s != [] {
      assert s[0] != delim[0];
      FindCloseAbsent(s[1..], delim);
    }
  }

  /** `delim + x + delim` on one line, with no delimiter character inside `x`,
      becomes exactly `open + x + close`. */
  lemma SpanWraps(x: string, rest: string, delim: string, open: string, close: string)
    requires delim != [] && LineFree(x) && delim[0] !in x
    ensures SpanPass(delim + x + delim + rest, delim, open, close)
         == open + x + close + SpanPass(rest, delim, open, close)
  {
    var s := delim + x + delim + rest;
    var d := |delim|;
    assert s[..d] == delim;
    assert s[d..] == x + delim + rest;
    FindCloseAfter(x, rest, delim);
    assert s[d..d + |x|] == x;
    assert s[d + |x| + d..] == rest;
    SpanMatchAt(s, delim, open, close, |x|, x, rest);
  }

  /** The same, after text the scan copies. */
  lemma SpanWrapsAfter(a: string, x: string, rest: string, delim: string, open: string, close: string)
    requires delim != [] && LineFree(x) && delim[0] !in a && delim[0] !in x
    ensures SpanPass(a + delim + x + delim + rest, delim, open, close)
         == a + open + x + close + SpanPass(rest, delim, open, close)
  {
    Assoc5(a, delim, x, delim, rest);
    SpanCopies(a, delim + x + delim + rest, delim, open, close);
    SpanWraps(x, rest, delim, open, close);
    Assoc5(a, open, x, close, SpanPass(rest, delim, open, close));
  }

  /** All characters of the delimiter are the same, as in `**`, `*` and `` ` ``. */
  predicate IsRun(delim: string) {
    forall i :: 0 <= i < |delim| ==> delim[i] == delim[0]
  }

  lemma RunSuffixNotDelim(delim: string, j: nat, b: string)
    requires delim != [] && IsRun(delim) && 0 < j <= |delim| && delim[0] !in b
    ensures !StartsWith(delim[j..] + b, delim)
  {
    var s := delim[j..] + b;
    var i := |delim| - j;
    assert |s| < |delim| || s[i] != delim[i] by {
      if |s| >= |delim| {
        assert s[i] == b[0];
        assert delim[i] == delim[0];
      }
    }
  }

  lemma {:induction false} UnpairedTail(delim: string, j: nat, b: string, open: string, close: string)
    requires delim != [] && IsRun(delim) && j <= |delim| && delim[0] !in b
    ensures SpanPass(delim[j..] + b, delim, open, close) == delim[j..] + b
    decreases |delim| - j
  {
    var s := delim[j..] + b;
    if j == |delim| {
      SpanCopies(b, [], delim, open, close);
      assert s == b + [];
    } else {
      if j == 0 {
        assert s[|delim|..] == b;
        FindCloseAbsent(b, delim);
      } else {
        RunSuffixNotDelim(delim, j, b);
      }
      SpanCopyStep(s, delim, open, close);
      assert s[0] == delim[j] && s[1..] == delim[j + 1..] + b;
      UnpairedTail(delim, j + 1, b, open, close);
    }
  }

  /** One delimiter with no other delimiter character on either side stays
      literal. */
  lemma Unpaired(a: string, b: string, delim: string, open: string, close: string)
    requires delim != [] && IsRun(delim) && delim[0] !in a && delim[0] !in b
    ensures SpanPass(a + delim + b, delim, open, close) == a + delim + b
  {
    assert a + delim + b == a + (delim[0..] + b);
    SpanCopies(a, delim[0..] + b, delim, open, close);
    UnpairedTail(delim, 0, b, open, close);
  }

  lemma {:induction false} FindCloseSplit(x: string, c: char, y: string, delim: string)
    requires delim != [] && LineFree(delim) && IsLineTerminator(c)
    ensures FindClose(x + [c] + y, delim) == FindClose(x, delim)
    decreases |x|
  {
    var s := x + [c] + y;
    StartsWithLineFree(x, c, y, delim);
    if x == [] {
      assert s[0] == c;
    } else if !StartsWith(x, delim) {
      assert s[0] == x[0] && s[1..] == x[1..] + [c] + y;
      FindCloseSplit(x[1..], c, y, delim);
    }
  }

  /** A match that starts in the line `a` is found the same way when more
      lines follow it. */
  lemma SplitKeepsMatch(a: string, c: char, t: string, delim: string)
    requires delim != [] && LineFree(delim) && IsLineTerminator(c)
    ensures StartsWith(a + [c] + t, delim) == StartsWith(a, delim)
    ensures |delim| <= |a| ==> FindClose((a + [c] + t)[|delim|..], delim) == FindClose(a[|delim|..], delim)
  {
    StartsWithLineFree(a, c, t, delim);
    if |delim| <= |a| {
      assert (a + [c] + t)[|delim|..] == a[|delim|..] + [c] + t;
      FindCloseSplit(a[|delim|..], c, t, delim);
    }
  }

  /** `SpanMatchStep` with the matched run and the remainder named. */
  lemma SpanMatchAt(s: string, delim: string, open: string, close: string, k: nat, m: string, r: string)
    requires delim != [] && StartsWith(s, delim) && FindClose(s[|delim|..], delim) == Some(k)
    requires s[|delim|..|delim| + k] == m && s[|delim| + k + |delim|..] == r
    ensures SpanPass(s, delim, open, close) == open + m + close + SpanPass(r, delim, open, close)
  {
    SpanMatchStep(s, delim, open, close, k);
  }

  /** A match that starts in the line `a` is taken the same way when more
      lines follow. */
  lemma SpanSplitMatchHead(a: string, c: char, t: string, delim: string, open: string, close: string,
                           k: nat, m: string, r: string)
    requires delim != [] && LineFree(delim) && IsLineTerminator(c)
    requires StartsWith(a, delim) && FindClose(a[|delim|..], delim) == Some(k)
    requires m == a[|delim|..|delim| + k] && r == a[|delim| + k + |delim|..]
    ensures SpanPass(a + [c] + t, delim, open, close) == open + m + close + SpanPass(r + [c] + t, delim, open, close)
  {
    var d := |delim|;
    SplitKeepsMatch(a, c, t, delim);
    SplitSlices(a, c, t, d, d + k);
    SplitSlices(a, c, t, d + k + d, d + k + d);
    SpanMatchAt(a + [c] + t, delim, open, close, k, m, r + [c] + t);
  }

  /** `SpanCopyStep` with the copied character and the remainder named. */
  lemma SpanCopyAt(s: string, delim: string, open: string, close: string, h: char, r: string)
    requires delim != [] && s != []
    requires !(StartsWith(s, delim) && FindClose(s[|delim|..], delim).Some?)
    requires s[0] == h && s[1..] == r
    ensures SpanPass(s, delim, open, close) == [h] + SpanPass(r, delim, open, close)
  {
    SpanCopyStep(s, delim, open, close);
  }

  lemma SpanSplitCopyHead(a: string, c: char, t: string, delim: string, open: string, close: string, r: string)
    requires delim != [] && LineFree(delim) && IsLineTerminator(c) && a != []
    requires !(StartsWith(a, delim) && FindClose(a[|delim|..], delim).Some?)
    requires r == a[1..]
    ensures SpanPass(a + [c] + t, delim, open, close) == [a[0]] + SpanPass(r + [c] + t, delim, open, close)
  {
    SplitKeepsMatch(a, c, t, delim);
    SplitSlices(a, c, t, 1, 1);
    SpanCopyAt(a + [c] + t, delim, open, close, a[0], r + [c] + t);
  }

  /** A span never crosses a line terminator: a line, its terminator, and the
      rest are rewritten independently. */
  lemma {:induction false} SpanSplit(a: string, c: char, t: string, delim: string, open: string, close: string)
    requires delim != [] && LineFree(delim) && IsLineTerminator(c)
    ensures SpanPass(a + [c] + t, delim, open, close)
         == SpanPass(a, delim, open, close) + [c] + SpanPass(t, delim, open, close)
    decreases |a|
  {
    var s := a + [c] + t;
    var d := |delim|;
    var T := SpanPass(t, delim, open, close);
    if a == [] {
      assert s == [c] + t && s[1..] == t;
      TerminatorNotMarker(c, t, delim);
      SpanCopyStep(s, delim, open, close);
    } else if StartsWith(a, delim) && FindClose(a[d..], delim).Some? {
      var k := FindClose(a[d..], delim).value;
      var m := a[d..d + k];
      var r := a[d + k + d..];
      var x := open + m + close;
      var R := SpanPass(r, delim, open, close);
      calc {
        SpanPass(s, delim, open, close);
      == { SpanSplitMatchHead(a, c, t, delim, open, close, k, m, r); }
        x + SpanPass(r + [c] + t, delim, open, close);
      == { SpanSplit(r, c, t, delim, open, close); }
        x + (R + [c] + T);
      == { AppendAssoc(x, R, [c], T); }
        x + R + [c] + T;
      == { SpanMatchAt(a, delim, open, close, k, m, r); }
        SpanPass(a, delim, open, close) + [c] + T;
      }
    } else {
      var r := a[1..];
      var x := [a[0]];
      var R := SpanPass(r, delim, open, close);
      calc {
        SpanPass(s, delim, open, close);
      == { SpanSplitCopyHead(a, c, t, delim, open, close, r); }
        x + SpanPass(r + [c] + t, delim, open, close);
      == { SpanSplit(r, c, t, delim, open, close); }
        x + (R + [c] + T);
      == { AppendAssoc(x, R, [c], T); }
        x + R + [c] + T;
      == { SpanCopyAt(a, delim, open, close, a[0], r); }
        SpanPass(a, delim, open, close) + [c] + T;
      }
    }
  }

  /** The span scan is the reference per-line rewrite: `f` is any line
      function that agrees with the scan on lines. */
  lemma {:induction false} SpanPerLine(s: string, delim: string, open: string, close: string, f: string -> string)
    requires delim != [] && LineFree(delim)
    requires forall l :: LineFree(l) ==> f(l) == SpanPass(l, delim, open, close)
    ensures SpanPass(s, delim, open, close) == PerLine(s, f)
    decreases |s|
  {
    var e := LineEnd(s);
    if e < |s| {
      SplitAt(s, e);
      SpanSplit(s[..e], s[e], s[e + 1..], delim, open, close);
      SpanPerLine(s[e + 1..], delim, open, close, f);
      PerLineCons(s[..e], s[e], s[e + 1..], f);
    } else {
      assert s[..e] == s;
      PerLineOfLine(s, f);
    }
  }

  /** The span scan applied after a per-line rewrite `f` is the per-line
      rewrite by the composition `h`. */
  lemma SpanAfter(s: string, delim: string, open: string, close: string,
                  f: string -> string, g: string -> string, h: string -> string)
    requires delim != [] && LineFree(delim)
    requires forall l :: LineFree(l) ==> LineFree(f(l))
    requires forall l :: LineFree(l) ==> g(l) == SpanPass(l, delim, open, close)
    requires forall l :: LineFree(l) ==> h(l) == g(f(l))
    ensures SpanPass(PerLine(s, f), delim, open, close) == PerLine(s, h)
  {
    SpanPerLine(PerLine(s, f), delim, open, close, g);
    PerLineCompose(s, f, g, h);
  }

  // ---------------------------------------------------------------------------
  // Literal replacement: /P/g

  function LiteralPass(s: string, pattern: string, replacement: string): string
    requires pattern != []
    decreases |s|
  {
    if s == [] then []
    else if StartsWith(s, pattern) then replacement + LiteralPass(s[|pattern|..], pattern, replacement)
    else [s[0]] + LiteralPass(s[1..], pattern, replacement)
  }

  /** Text in which the pattern never occurs is copied unchanged. */
  lemma {:induction false} LiteralIdentity(s: string, pattern: string, replacement: string)
    requires pattern != [] && !Occurs(s, pattern)
    ensures LiteralPass(s, pattern, replacement) == s
    decreases |s|
  {
    if s != [] {
      LiteralIdentity(s[1..], pattern, replacement);
    }
  }

  /** Characters before the first pattern character are copied in order. */
  lemma {:induction false} LiteralCopies(a: string, rest: string, pattern: string, replacement: string)
    requires pattern != [] && pattern[0] !in a
    ensures LiteralPass(a + rest, pattern, replacement) == a + LiteralPass(rest, pattern, replacement)
    decreases |a|
  {
    if a == [] {
      assert a + rest == rest;
    } else {
      var s := a + rest;
      assert s[0] == a[0] && s[1..] == a[1..] + rest;
      LiteralCopies(a[1..], rest, pattern, replacement);
    }
  }

  /** An occurrence of the pattern with no pattern character before it is
      replaced, and the scan resumes after it. */
  lemma LiteralReplaces(a: string, rest: string, pattern: string, replacement: string)
    requires pattern != [] && pattern[0] !in a
    ensures LiteralPass(a + pattern + rest, pattern, replacement)
         == a + replacement + LiteralPass(rest, pattern, replacement)
  {
    var u := pattern + rest;
    assert a + pattern + rest == a + u;
    LiteralCopies(a, u, pattern, replacement);
    assert u[..|pattern|] == pattern && u[|pattern|..] == rest;
    ConsAssoc(a, replacement, LiteralPass(rest, pattern, replacement));
  }

  /** No two adjacent newlines. */
  ghost predicate NoNewlinePair(s: string) {
    forall i, j :: 0 <= i < j < |s| && j == i + 1 ==> !(s[i] == '\n' && s[j] == '\n')
  }

  /** Replacing every non-overlapping `\n\n`, left to right, by text without a
      newline leaves no `\n\n` behind, and the result starts with a newline
      only where the input starts with a lone one. */
  lemma {:induction false} NewlinePairsGone(s: string, replacement: string)
    requires replacement != [] && '\n' !in replacement
    ensures NoNewlinePair(LiteralPass(s, "\n\n", replacement))
    ensures var r := LiteralPass(s, "\n\n", replacement);
      r != [] && r[0] == '\n' ==> s != [] && s[0] == '\n' && !StartsWith(s, "\n\n")
    decreases |s|
  {
    var r := LiteralPass(s, "\n\n", replacement);
    if s == [] {
    } else if StartsWith(s, "\n\n") {
      NewlinePairsGone(s[2..], replacement);
      var t := LiteralPass(s[2..], "\n\n", replacement);
      assert r == replacement + t;
      assert r[0] == replacement[0];
      forall i, j | 0 <= i < j < |r| && j == i + 1
        ensures !(r[i] == '\n' && r[j] == '\n')
      {
        if j < |replacement| {
          assert r[i] == replacement[i];
        } else if i >= |replacement| {
          assert r[i] == t[i - |replacement|] && r[j] == t[j - |replacement|];
        } else {
          assert r[i] == replacement[i];
        }
      }
    } else {
      NewlinePairsGone(s[1..], replacement);
      var t := LiteralPass(s[1..], "\n\n", replacement);
      assert r == [s[0]] + t;
      forall i, j | 0 <= i < j < |r| && j == i + 1
        ensures !(r[i] == '\n' && r[j] == '\n')
      {
        if i > 0 {
          assert r[i] == t[i - 1] && r[j] == t[j - 1];
        } else {
          assert r[j] == t[0];
        }
      }
    }
  }
}
