/** Characters, lines and prefixes: the vocabulary every rewrite pass of the
    markdown converter is stated in. Lines are delimited as JavaScript regular
    expressions delimit them: a multiline `^` holds after a line terminator and
    `.` matches anything except one. */
module Text {

  datatype Option<T> = None | Some(value: T)

  /** The four characters JavaScript treats as line terminators. */
  predicate IsLineTerminator(c: char) {
    c == '\n' || c == '\r' || c == '\U{2028}' || c == '\U{2029}'
  }

  /** `s` lies within one line: `.*` can consume all of it. */
  predicate LineFree(s: string) {
    forall i :: 0 <= i < |s| ==> !IsLineTerminator(s[i])
  }

  predicate StartsWith(s: string, prefix: string) {
    prefix <= s
  }

  /** `pattern` occurs somewhere in `s`, read left to right. */
  predicate Occurs(s: string, pattern: string)
    decreases |s|
  {
    StartsWith(s, pattern) || (s != [] && Occurs(s[1..], pattern))
  }

  /** Index of the first line terminator of `s`, or `|s|` when there is none. */
  function LineEnd(s: string): (e: nat)
    ensures e <= |s|
    ensures LineFree(s[..e])
    ensures e < |s| ==> IsLineTerminator(s[e])
  {
    if s == [] || IsLineTerminator(s[0]) then 0 else 1 + LineEnd(s[1..])
  }

  /** Reference reading of "acts per line": apply `f` to every line of `s`,
      keeping each line terminator where it was. */
  function PerLine(s: string, f: string -> string): string
    decreases |s|
  {
    var e := LineEnd(s);
    if e < |s| then f(s[..e]) + [s[e]] + PerLine(s[e + 1..], f) else f(s)
  }

  /** Every line of `s` satisfies `p`; the lines are those `PerLine` visits. */
  predicate EveryLine(s: string, p: string -> bool)
    decreases |s|
  {
    var e := LineEnd(s);
    p(s[..e]) && (e < |s| ==> EveryLine(s[e + 1..], p))
  }

  lemma LineFreeAppend(a: string, b: string)
    ensures LineFree(a + b) <==> LineFree(a) && LineFree(b)
  {
    if LineFree(a + b) {
      forall i | 0 <= i < |a| ensures !IsLineTerminator(a[i]) {
        assert a[i] == (a + b)[i];
      }
      forall i | 0 <= i < |b| ensures !IsLineTerminator(b[i]) {
        assert b[i] == (a + b)[|a| + i];
      }
    }
  }

  lemma {:induction false} LineEndSkips(a: string, t: string)
    requires LineFree(a)
    ensures LineEnd(a + t) == |a| + LineEnd(t)
  {
    if a == [] {
      assert a + t == t;
    } else {
      assert (a + t)[0] == a[0] && (a + t)[1..] == a[1..] + t;
      LineEndSkips(a[1..], t);
    }
  }

  lemma LineEndAt(a: string, c: char, t: string)
    requires LineFree(a) && IsLineTerminator(c)
    ensures LineEnd(a + [c] + t) == |a|
  {
    assert a + [c] + t == a + ([c] + t);
    LineEndSkips(a, [c] + t);
  }

  lemma PrefixLineFree(s: string, k: nat)
    requires LineFree(s) && k <= |s|
    ensures LineFree(s[..k]) && LineFree(s[k..])
  {
  }

  /** `a + [c] + t` cut at `|a|`. */
  lemma SplitSlices(a: string, c: char, t: string, i: nat, j: nat)
    requires i <= j <= |a|
    ensures (a + [c] + t)[i..j] == a[i..j]
    ensures (a + [c] + t)[j..] == a[j..] + [c] + t
  {
  }

  lemma CutAtLine(a: string, c: char, t: string)
    ensures (a + [c] + t)[..|a|] == a && (a + [c] + t)[|a|] == c && (a + [c] + t)[|a| + 1..] == t
  {
  }

  /** The defining equation of `PerLine`, read from the other side: one line,
      its terminator, and the rest. */
  lemma PerLineCons(a: string, c: char, t: string, f: string -> string)
    requires LineFree(a) && IsLineTerminator(c)
    ensures PerLine(a + [c] + t, f) == f(a) + [c] + PerLine(t, f)
  {
    var s := a + [c] + t;
    LineEndAt(a, c, t);
    CutAtLine(a, c, t);
  }

  /** The defining equation of `EveryLine`, read from the other side. */
  lemma EveryLineCons(a: string, c: char, t: string, p: string -> bool)
    requires LineFree(a) && IsLineTerminator(c) && p(a) && EveryLine(t, p)
    ensures EveryLine(a + [c] + t, p)
  {
    LineEndAt(a, c, t);
    CutAtLine(a, c, t);
  }

  lemma PerLineOfLine(a: string, f: string -> string)
    requires LineFree(a)
    ensures PerLine(a, f) == f(a)
  {
    LineEndSkips(a, []);
    assert a + [] == a;
  }

  lemma AppendAssoc(x: string, y: string, z: string, w: string)
    ensures x + (y + z + w) == x + y + z + w
  {
  }

  lemma Assoc5(x: string, y: string, z: string, w: string, v: string)
    ensures x + (y + z + w + v) == x + y + z + w + v
  {
  }

  lemma ConsAssoc(x: string, y: string, z: string)
    ensures x + (y + z) == x + y + z
  {
  }

  lemma HeadTail(s: string)
    requires s != []
    ensures s == [s[0]] + s[1..]
  {
  }

  lemma LineFreeSlice(s: string, i: nat, j: nat)
    requires LineFree(s) && i <= j <= |s|
    ensures LineFree(s[i..j])
  {
    forall n | 0 <= n < j - i ensures !IsLineTerminator(s[i..j][n]) {
      assert s[i..j][n] == s[i + n];
    }
  }

  lemma LineFreeUnit(c: char)
    requires !IsLineTerminator(c)
    ensures LineFree([c])
  {
  }

  /** `s` is its prefix before `e`, the character at `e`, and the rest. */
  lemma SplitAt(s: string, e: nat)
    requires e < |s|
    ensures s == s[..e] + [s[e]] + s[e + 1..]
  {
  }

  /** A function that leaves every line of `s` as it is leaves `s` as it is:
      here the lines of `s` satisfy `p`, and `f` fixes every such line. */
  lemma {:induction false} PerLineIdentity(s: string, f: string -> string, p: string -> bool)
    requires EveryLine(s, p)
    requires forall l :: LineFree(l) && p(l) ==> f(l) == l
    ensures PerLine(s, f) == s
    decreases |s|
  {
    var e := LineEnd(s);
    if e < |s| {
      PerLineIdentity(s[e + 1..], f, p);
      SplitAt(s, e);
    } else {
      assert s[..e] == s;
    }
  }

  /** Two per-line rewrites in a row are one per-line rewrite with the
      composed line function, when the first maps lines to lines. */
  lemma {:induction false} PerLineCompose(s: string, f: string -> string, g: string -> string, h: string -> string)
    requires forall l :: LineFree(l) ==> LineFree(f(l))
    requires forall l :: LineFree(l) ==> h(l) == g(f(l))
    ensures PerLine(PerLine(s, f), g) == PerLine(s, h)
    decreases |s|
  {
    var e := LineEnd(s);
    if e < |s| {
      SplitAt(s, e);
      var a := s[..e];
      var t := s[e + 1..];
      PerLineCons(a, s[e], t, f);
      PerLineCons(f(a), s[e], PerLine(t, f), g);
      PerLineCons(a, s[e], t, h);
      PerLineCompose(t, f, g, h);
    } else {
      assert s[..e] == s;
      PerLineOfLine(s, f);
      PerLineOfLine(f(s), g);
      PerLineOfLine(s, h);
    }
  }
}
