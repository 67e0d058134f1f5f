/** The design-document reader: the markdown-to-HTML converter, ten
    whole-string replacements applied in a fixed order, and the dialog that
    shows its output. */
module MarkdownReader {
  import opened Text
  import opened Rewrite

  // ---------------------------------------------------------------------------
  // The markup the replacements insert

  // Long attribute strings are written as two literals joined, each short.
  const H3_OPEN := "<h3 class=\"text-lg font-semibold " + "mt-6 mb-3 text-foreground\">"
  const H3_CLOSE := "</h3>"
  const H2_OPEN := "<h2 class=\"text-xl font-semibold " + "mt-8 mb-4 text-foreground\">"
  const H2_CLOSE := "</h2>"
  const H1_OPEN := "<h1 class=\"text-2xl font-bold " + "mt-8 mb-6 text-foreground\">"
  const H1_CLOSE := "</h1>"
  const STRONG_OPEN := "<strong class=\"font-semibold " + "text-foreground\">"
  const STRONG_CLOSE := "</strong>"
  const EM_OPEN := "<em class=\"italic\">"
  const EM_CLOSE := "</em>"
  const CODE_OPEN := "<code class=\"bg-muted px-1 py-0.5 " + "rounded text-sm font-mono\">"
  const CODE_CLOSE := "</code>"
  const LI_OPEN := "<li class=\"ml-4 mb-1\">\U{2022} "
  const LI_CLOSE := "</li>"
  const PARA_OPEN := "<p class=\"mb-4 text-muted-foreground " + "leading-relaxed\">"
  const PARA_CLOSE := "</p>"
  const PARA_BREAK := PARA_CLOSE + PARA_OPEN

  /** Neither `*`, nor a backtick, nor a line terminator. */
  predicate PlainChar(c: char) {
    c != '*' && c != '`' && !IsLineTerminator(c)
  }

  predicate Plain(m: string) {
    forall i :: 0 <= i < |m| ==> PlainChar(m[i])
  }

  /** Markup that no later pass can act on: it starts with `<` (so it never
      begins a line with a marker) and is `Plain`. */
  predicate Inert(m: string) {
    m != [] && m[0] == '<' && Plain(m)
  }

  lemma PlainFacts(m: string)
    requires Plain(m)
    ensures '*' !in m && '`' !in m && '\n' !in m && LineFree(m)
  {
  }

  lemma InertJoin(a: string, b: string)
    requires Inert(a) && Plain(b)
    ensures Inert(a + b)
  {
    forall i | 0 <= i < |a + b| ensures PlainChar((a + b)[i]) {
      if i < |a| {
        assert (a + b)[i] == a[i];
      } else {
        assert (a + b)[i] == b[i - |a|];
      }
    }
  }

  lemma H3MarkupInert()
    ensures Inert(H3_OPEN) && Inert(H3_CLOSE)
  {
    InertJoin("<h3 class=\"text-lg font-semibold ", "mt-6 mb-3 text-foreground\">");
  }

  lemma H2MarkupInert()
    ensures Inert(H2_OPEN) && Inert(H2_CLOSE)
  {
    InertJoin("<h2 class=\"text-xl font-semibold ", "mt-8 mb-4 text-foreground\">");
  }

  lemma H1MarkupInert()
    ensures Inert(H1_OPEN) && Inert(H1_CLOSE)
  {
    InertJoin("<h1 class=\"text-2xl font-bold ", "mt-8 mb-6 text-foreground\">");
  }

  lemma StrongMarkupInert()
    ensures Inert(STRONG_OPEN) && Inert(STRONG_CLOSE)
  {
    InertJoin("<strong class=\"font-semibold ", "text-foreground\">");
  }

  lemma EmMarkupInert()
    ensures Inert(EM_OPEN) && Inert(EM_CLOSE)
  {
  }

  lemma CodeMarkupInert()
    ensures Inert(CODE_OPEN) && Inert(CODE_CLOSE)
  {
    InertJoin("<code class=\"bg-muted px-1 py-0.5 ", "rounded text-sm font-mono\">");
  }

  lemma ListMarkupInert()
    ensures Inert(LI_OPEN) && Inert(LI_CLOSE)
  {
  }

  lemma ParagraphMarkupInert()
    ensures Inert(PARA_OPEN) && Inert(PARA_CLOSE) && Inert(PARA_BREAK)
  {
    InertJoin("<p class=\"mb-4 text-muted-foreground ", "leading-relaxed\">");
    InertJoin(PARA_CLOSE, PARA_OPEN);
  }

  /** No markup any pass inserts can be acted on by a later pass. */
  lemma MarkupInert()
    ensures Inert(H3_OPEN) && Inert(H3_CLOSE) && Inert(H2_OPEN) && Inert(H2_CLOSE)
    ensures Inert(H1_OPEN) && Inert(H1_CLOSE)
    ensures Inert(STRONG_OPEN) && Inert(STRONG_CLOSE) && Inert(EM_OPEN) && Inert(EM_CLOSE)
    ensures Inert(CODE_OPEN) && Inert(CODE_CLOSE) && Inert(LI_OPEN) && Inert(LI_CLOSE)
    ensures Inert(PARA_BREAK) && Inert(PARA_OPEN) && Inert(PARA_CLOSE)
  {
    H3MarkupInert();
    H2MarkupInert();
    H1MarkupInert();
    StrongMarkupInert();
    EmMarkupInert();
    CodeMarkupInert();
    ListMarkupInert();
    ParagraphMarkupInert();
  }

  lemma HeadingMarkupLineFree()
    ensures LineFree(H3_OPEN) && LineFree(H3_CLOSE) && LineFree(H2_OPEN) && LineFree(H2_CLOSE)
    ensures LineFree(H1_OPEN) && LineFree(H1_CLOSE) && LineFree(LI_OPEN) && LineFree(LI_CLOSE)
  {
    H3MarkupInert(); H2MarkupInert(); H1MarkupInert(); ListMarkupInert();
    PlainFacts(H3_OPEN); PlainFacts(H3_CLOSE);
    PlainFacts(H2_OPEN); PlainFacts(H2_CLOSE);
    PlainFacts(H1_OPEN); PlainFacts(H1_CLOSE);
    PlainFacts(LI_OPEN); PlainFacts(LI_CLOSE);
  }

  lemma InlineMarkupLineFree()
    ensures LineFree(STRONG_OPEN) && LineFree(STRONG_CLOSE) && LineFree(EM_OPEN) && LineFree(EM_CLOSE)
    ensures LineFree(CODE_OPEN) && LineFree(CODE_CLOSE)
  {
    StrongMarkupInert(); EmMarkupInert(); CodeMarkupInert();
    PlainFacts(STRONG_OPEN); PlainFacts(STRONG_CLOSE);
    PlainFacts(EM_OPEN); PlainFacts(EM_CLOSE);
    PlainFacts(CODE_OPEN); PlainFacts(CODE_CLOSE);
  }

  // ---------------------------------------------------------------------------
  // The ten passes, in source order

  function H3Pass(s: string): string { AnchoredPass(s, "### ", H3_OPEN, H3_CLOSE, true) }
  function H2Pass(s: string): string { AnchoredPass(s, "## ", H2_OPEN, H2_CLOSE, true) }
  function H1Pass(s: string): string { AnchoredPass(s, "# ", H1_OPEN, H1_CLOSE, true) }
  function BoldPass(s: string): string { SpanPass(s, "**", STRONG_OPEN, STRONG_CLOSE) }
  function ItalicPass(s: string): string { SpanPass(s, "*", EM_OPEN, EM_CLOSE) }
  function CodePass(s: string): string { SpanPass(s, "`", CODE_OPEN, CODE_CLOSE) }
  function ListPass(s: string): string { AnchoredPass(s, "- ", LI_OPEN, LI_CLOSE, true) }
  function BreakPass(s: string): string { LiteralPass(s, "\n\n", PARA_BREAK) }

  /** `/^\n/` without the multiline flag: only a newline at the very start. */
  function LeadingPass(s: string): string {
    if s != [] && s[0] == '\n' then PARA_OPEN + s[1..] else s
  }

  /** `/\n$/` without the multiline flag: only a newline at the very end. */
  function TrailingPass(s: string): string {
    if s != [] && s[|s| - 1] == '\n' then s[..|s| - 1] + PARA_CLOSE else s
  }

  /** Passes one to seven, each of which acts within lines. */
  function LinePasses(text: string): string {
    ListPass(CodePass(ItalicPass(BoldPass(H1Pass(H2Pass(H3Pass(text)))))))
  }

  /** Passes eight to ten, which act on the whole string. */
  function ParagraphPasses(s: string): string {
    TrailingPass(LeadingPass(BreakPass(s)))
  }

  /** The converter. It is total: every pass consumes its input. No output
      holds `\n\n`: every such pair has become a paragraph break. */
  function FormatMarkdown(text: string): (html: string)
    ensures NoNewlinePair(html)
  {
    ParagraphsNoNewlinePair(LinePasses(text));
    ParagraphPasses(LinePasses(text))
  }

  // ---------------------------------------------------------------------------
  // The same passes read one line at a time

  function H3Line(l: string): string { LineRewrite(l, "### ", H3_OPEN, H3_CLOSE) }
  function H2Line(l: string): string { LineRewrite(l, "## ", H2_OPEN, H2_CLOSE) }
  function H1Line(l: string): string { LineRewrite(l, "# ", H1_OPEN, H1_CLOSE) }
  function ListLine(l: string): string { LineRewrite(l, "- ", LI_OPEN, LI_CLOSE) }

  function HeadingLine(l: string): string { H1Line(H2Line(H3Line(l))) }
  function InlineLine(l: string): string { CodePass(ItalicPass(BoldPass(l))) }

  /** What passes one to seven make of one line. */
  function RenderLine(l: string): string { ListLine(InlineLine(HeadingLine(l))) }

  /** A line on which passes one to seven find nothing to do. */
  predicate PlainLine(l: string) {
    '*' !in l && '`' !in l
    && !StartsWith(l, "### ") && !StartsWith(l, "## ") && !StartsWith(l, "# ") && !StartsWith(l, "- ")
  }

  lemma HeadingLineFree(l: string)
    requires LineFree(l)
    ensures LineFree(H3Line(l)) && LineFree(H2Line(H3Line(l))) && LineFree(HeadingLine(l))
  {
    HeadingMarkupLineFree();
    LineRewriteLineFree(l, "### ", H3_OPEN, H3_CLOSE);
    LineRewriteLineFree(H3Line(l), "## ", H2_OPEN, H2_CLOSE);
    LineRewriteLineFree(H2Line(H3Line(l)), "# ", H1_OPEN, H1_CLOSE);
  }

  lemma InlineLineFree(l: string)
    requires LineFree(l)
    ensures LineFree(BoldPass(l)) && LineFree(ItalicPass(BoldPass(l))) && LineFree(InlineLine(l))
  {
    InlineMarkupLineFree();
    SpanLineFree(l, "**", STRONG_OPEN, STRONG_CLOSE);
    SpanLineFree(BoldPass(l), "*", EM_OPEN, EM_CLOSE);
    SpanLineFree(ItalicPass(BoldPass(l)), "`", CODE_OPEN, CODE_CLOSE);
  }

  function H3H2Line(l: string): string { H2Line(H3Line(l)) }
  function BoldItalicLine(l: string): string { ItalicPass(BoldPass(l)) }
  function HeadingInlineLine(l: string): string { InlineLine(HeadingLine(l)) }

  lemma MarkersLineFree()
    ensures LineFree("### ") && LineFree("## ") && LineFree("# ") && LineFree("- ")
    ensures LineFree("**") && LineFree("*") && LineFree("`")
  {
  }

  lemma H3KeepsLines()
    ensures forall l :: LineFree(l) ==> LineFree(H3Line(l))
  {
    forall l | LineFree(l) ensures LineFree(H3Line(l)) {
      HeadingLineFree(l);
    }
  }

  lemma H3H2KeepsLines()
    ensures forall l :: LineFree(l) ==> LineFree(H3H2Line(l))
  {
    forall l | LineFree(l) ensures LineFree(H3H2Line(l)) {
      HeadingLineFree(l);
    }
  }

  lemma BoldKeepsLines()
    ensures forall l :: LineFree(l) ==> LineFree(BoldPass(l))
  {
    forall l | LineFree(l) ensures LineFree(BoldPass(l)) {
      InlineLineFree(l);
    }
  }

  lemma BoldItalicKeepsLines()
    ensures forall l :: LineFree(l) ==> LineFree(BoldItalicLine(l))
  {
    forall l | LineFree(l) ensures LineFree(BoldItalicLine(l)) {
      InlineLineFree(l);
    }
  }

  lemma HeadingKeepsLines()
    ensures forall l :: LineFree(l) ==> LineFree(HeadingLine(l))
  {
    forall l | LineFree(l) ensures LineFree(HeadingLine(l)) {
      HeadingLineFree(l);
    }
  }

  lemma HeadingInlineKeepsLines()
    ensures forall l :: LineFree(l) ==> LineFree(HeadingInlineLine(l))
  {
    forall l | LineFree(l) ensures LineFree(HeadingInlineLine(l)) {
      HeadingLineFree(l);
      InlineLineFree(HeadingLine(l));
    }
  }

  /** The three heading passes together rewrite each line by `HeadingLine`. */
  lemma HeadingPassesPerLine(s: string)
    ensures H1Pass(H2Pass(H3Pass(s))) == PerLine(s, HeadingLine)
  {
    MarkersLineFree();
    H3KeepsLines();
    H3H2KeepsLines();
    AnchoredPerLine(s, "### ", H3_OPEN, H3_CLOSE, H3Line);
    AnchoredAfter(s, "## ", H2_OPEN, H2_CLOSE, H3Line, H2Line, H3H2Line);
    AnchoredAfter(s, "# ", H1_OPEN, H1_CLOSE, H3H2Line, H1Line, HeadingLine);
  }

  /** The three span passes together rewrite each line by `InlineLine`. */
  lemma InlinePassesPerLine(s: string)
    ensures CodePass(ItalicPass(BoldPass(s))) == PerLine(s, InlineLine)
  {
    MarkersLineFree();
    BoldKeepsLines();
    BoldItalicKeepsLines();
    SpanPerLine(s, "**", STRONG_OPEN, STRONG_CLOSE, BoldPass);
    SpanAfter(s, "*", EM_OPEN, EM_CLOSE, BoldPass, ItalicPass, BoldItalicLine);
    SpanAfter(s, "`", CODE_OPEN, CODE_CLOSE, BoldItalicLine, CodePass, InlineLine);
  }

  /** Passes one to seven act line by line: every line terminator stays
      where it was and every line is rewritten by `RenderLine` on its own. */
  lemma LinePassesPerLine(s: string)
    ensures LinePasses(s) == PerLine(s, RenderLine)
  {
    MarkersLineFree();
    HeadingKeepsLines();
    HeadingInlineKeepsLines();
    HeadingPassesPerLine(s);
    InlinePassesPerLine(PerLine(s, HeadingLine));
    PerLineCompose(s, HeadingLine, InlineLine, HeadingInlineLine);
    AnchoredAfter(s, "- ", LI_OPEN, LI_CLOSE, HeadingInlineLine, ListLine, RenderLine);
  }

  /** The converter is the paragraph passes applied to the line-by-line
      rendering of its input. */
  lemma FormatByLines(text: string)
    ensures FormatMarkdown(text) == ParagraphPasses(PerLine(text, RenderLine))
  {
    LinePassesPerLine(text);
  }

  // ---------------------------------------------------------------------------
  // Headings

  /** A line is rewritten by the heading pass its marker names, and only by
      that one: `### ` gives h3, `## ` h2, `# ` h1; anything else is left. */
  lemma HeadingLevels(l: string)
    ensures StartsWith(l, "### ") ==> HeadingLine(l) == H3_OPEN + l[4..] + H3_CLOSE
    ensures StartsWith(l, "## ") ==> HeadingLine(l) == H2_OPEN + l[3..] + H2_CLOSE
    ensures StartsWith(l, "# ") ==> HeadingLine(l) == H1_OPEN + l[2..] + H1_CLOSE
    ensures !StartsWith(l, "### ") && !StartsWith(l, "## ") && !StartsWith(l, "# ")
            ==> HeadingLine(l) == l
  {
    MarkerExclusion(l);
    if StartsWith(l, "### ") {
      H3MarkupInert();
      LineRewriteHead(l, "### ", H3_OPEN, H3_CLOSE);
      LineRewriteMisses(H3Line(l), "## ", H2_OPEN, H2_CLOSE);
      LineRewriteMisses(H3Line(l), "# ", H1_OPEN, H1_CLOSE);
    } else if StartsWith(l, "## ") {
      H2MarkupInert();
      LineRewriteHead(l, "## ", H2_OPEN, H2_CLOSE);
      LineRewriteMisses(H2Line(l), "# ", H1_OPEN, H1_CLOSE);
    }
  }

  /** One marker never begins a line that begins with a longer one. */
  lemma MarkerExclusion(l: string)
    ensures StartsWith(l, "## ") ==> !StartsWith(l, "### ")
    ensures StartsWith(l, "# ") ==> !StartsWith(l, "## ") && !StartsWith(l, "### ")
  {
    if StartsWith(l, "## ") {
      assert l[2] == ' ';
    }
    if StartsWith(l, "# ") {
      assert l[1] == ' ';
    }
  }

  /** A line that starts with four or more `#`, or with a `#` followed by
      neither `#` nor a space, is not a heading. */
  lemma HeadingLiteral(l: string)
    requires StartsWith(l, "####") || (|l| >= 2 && l[0] == '#' && l[1] != '#' && l[1] != ' ')
    ensures HeadingLine(l) == l
  {
    assert l[1] != ' ' && (l[1] == '#' ==> l[2] != ' ' && l[3] != ' ');
    HeadingLevels(l);
  }

  // ---------------------------------------------------------------------------
  // Bold, italic, inline code

  lemma SpanAbsent(s: string, delim: string, open: string, close: string)
    requires delim != [] && delim[0] !in s
    ensures SpanPass(s, delim, open, close) == s
  {
    SpanCopies(s, [], delim, open, close);
    assert s + [] == s;
  }

  /** `**X**` with no `*` and no line terminator in `X` becomes one strong
      element, and the scan resumes after it. */
  lemma BoldWraps(x: string, rest: string)
    requires LineFree(x) && '*' !in x
    ensures BoldPass("**" + x + "**" + rest) == STRONG_OPEN + x + STRONG_CLOSE + BoldPass(rest)
  {
    SpanWraps(x, rest, "**", STRONG_OPEN, STRONG_CLOSE);
  }

  /** `*X*` left over after the bold pass becomes one em element. */
  lemma ItalicWraps(x: string, rest: string)
    requires LineFree(x) && '*' !in x
    ensures ItalicPass("*" + x + "*" + rest) == EM_OPEN + x + EM_CLOSE + ItalicPass(rest)
  {
    SpanWraps(x, rest, "*", EM_OPEN, EM_CLOSE);
  }

  /** A backtick pair on one line becomes one code element. */
  lemma CodeWraps(x: string, rest: string)
    requires LineFree(x) && '`' !in x
    ensures CodePass("`" + x + "`" + rest) == CODE_OPEN + x + CODE_CLOSE + CodePass(rest)
  {
    SpanWraps(x, rest, "`", CODE_OPEN, CODE_CLOSE);
  }

  /** The italic pass sees nothing of a strong element but its text. */
  lemma ItalicSkipsStrong(x: string, rest: string)
    requires '*' !in x
    ensures ItalicPass(STRONG_OPEN + x + STRONG_CLOSE + rest) == STRONG_OPEN + x + STRONG_CLOSE + ItalicPass(rest)
  {
    MarkupInert();
    SpanCopies(STRONG_OPEN + x + STRONG_CLOSE, rest, "*", EM_OPEN, EM_CLOSE);
  }

  /** A single `*` with no other `*` on either side stays literal through all
      three span passes. */
  lemma UnpairedStar(a: string, b: string)
    requires '*' !in a && '*' !in b && '`' !in a && '`' !in b
    ensures InlineLine(a + "*" + b) == a + "*" + b
  {
    var s := a + "*" + b;
    assert s == a + ("**"[1..] + b);
    SpanCopies(a, "**"[1..] + b, "**", STRONG_OPEN, STRONG_CLOSE);
    UnpairedTail("**", 1, b, STRONG_OPEN, STRONG_CLOSE);
    Unpaired(a, b, "*", EM_OPEN, EM_CLOSE);
    SpanAbsent(s, "`", CODE_OPEN, CODE_CLOSE);
  }

  /** A single backtick with no other backtick on either side stays literal. */
  lemma UnpairedBacktick(a: string, b: string)
    requires '`' !in a && '`' !in b
    ensures CodePass(a + "`" + b) == a + "`" + b
  {
    Unpaired(a, b, "`", CODE_OPEN, CODE_CLOSE);
  }

  /** A lone `**`: the bold pass finds no partner, so the italic pass pairs
      its two asterisks around nothing and leaves an empty em element. */
  lemma LoneDoubleStar(a: string, b: string)
    requires '*' !in a && '*' !in b && '`' !in a && '`' !in b
    ensures InlineLine(a + "**" + b) == a + EM_OPEN + EM_CLOSE + b
  {
    Unpaired(a, b, "**", STRONG_OPEN, STRONG_CLOSE);
    EmptyEmphasis(a, b);
    var u := a + EM_OPEN + EM_CLOSE + b;
    EmMarkupInert();
    PlainFacts(EM_OPEN);
    PlainFacts(EM_CLOSE);
    SpanAbsent(u, "`", CODE_OPEN, CODE_CLOSE);
  }

  lemma EmptyEmphasis(a: string, b: string)
    requires '*' !in a && '*' !in b
    ensures ItalicPass(a + "**" + b) == a + EM_OPEN + EM_CLOSE + b
  {
    assert a + "*" + [] == a + "*";
    assert "*" + "*" == "**";
    ConsAssoc(a, "*", "*");
    SpanWrapsAfter(a, [], b, "*", EM_OPEN, EM_CLOSE);
    SpanAbsent(b, "*", EM_OPEN, EM_CLOSE);
    assert a + EM_OPEN + [] == a + EM_OPEN;
  }

  /** Code spans do not protect their contents: `**X**` between backticks has
      already become a strong element when the code pass wraps it. */
  lemma CodeAfterEmphasis(x: string)
    requires LineFree(x) && '*' !in x && '`' !in x
    ensures InlineLine("`" + "**" + x + "**" + "`") == CODE_OPEN + STRONG_OPEN + x + STRONG_CLOSE + CODE_CLOSE
  {
    var strong := STRONG_OPEN + x + STRONG_CLOSE;
    var b := "`" + strong + "`";
    AppendAssoc("`", "**" + x, "**", "`");
    ConsAssoc("`", "**", x);
    BoldInsideCode(x);
    ConsAssoc("`", strong, "`");
    StrongMarkupInert();
    PlainOf(x);
    PlainWrap(STRONG_OPEN, x, STRONG_CLOSE);
    PlainFacts(strong);
    SpanAbsent(b, "*", EM_OPEN, EM_CLOSE);
    CodeWraps(strong, []);
    assert b + [] == b;
    AppendAssoc(CODE_OPEN, STRONG_OPEN, x, STRONG_CLOSE);
  }

  lemma BoldInsideCode(x: string)
    requires LineFree(x) && '*' !in x
    ensures BoldPass("`" + ("**" + x + "**" + "`")) == "`" + (STRONG_OPEN + x + STRONG_CLOSE + "`")
  {
    SpanCopies("`", "**" + x + "**" + "`", "**", STRONG_OPEN, STRONG_CLOSE);
    BoldWraps(x, "`");
    SpanAbsent("`", "**", STRONG_OPEN, STRONG_CLOSE);
  }

  // ---------------------------------------------------------------------------
  // List items

  /** Two consecutive item lines become two separate list items: nothing
      groups or merges them. */
  lemma ListItemsSeparate(a: string, b: string)
    requires LineFree(a) && LineFree(b) && StartsWith(a, "- ") && StartsWith(b, "- ")
    ensures ListPass(a + "\n" + b) == LI_OPEN + a[2..] + LI_CLOSE + "\n" + LI_OPEN + b[2..] + LI_CLOSE
  {
    var x := LI_OPEN + a[2..] + LI_CLOSE;
    var y := LI_OPEN + b[2..] + LI_CLOSE;
    assert LineFree("- ");
    AnchoredSplit(a, '\n', b, "- ", LI_OPEN, LI_CLOSE, true);
    AnchoredOnLine(a, "- ", LI_OPEN, LI_CLOSE, true);
    AnchoredOnLine(b, "- ", LI_OPEN, LI_CLOSE, true);
    assert ListPass(a + "\n" + b) == x + "\n" + y;
    AppendAssoc(x + "\n", LI_OPEN, b[2..], LI_CLOSE);
  }

  // ---------------------------------------------------------------------------
  // Paragraphs

  lemma NoNewlinePairJoin(x: string, y: string)
    requires NoNewlinePair(x) && NoNewlinePair(y)
    requires x == [] || y == [] || x[|x| - 1] != '\n' || y[0] != '\n'
    ensures NoNewlinePair(x + y)
  {
    var s := x + y;
    forall i, j | 0 <= i < j < |s| && j == i + 1 ensures !(s[i] == '\n' && s[j] == '\n') {
      if j < |x| {
        assert s[i] == x[i] && s[j] == x[j];
      } else if i >= |x| {
        assert s[i] == y[i - |x|] && s[j] == y[j - |x|];
      } else {
        assert s[i] == x[|x| - 1] && s[j] == y[0];
      }
    }
  }

  lemma NoNewlineNoPair(m: string)
    requires '\n' !in m
    ensures NoNewlinePair(m)
  {
    forall i, j | 0 <= i < j < |m| && j == i + 1 ensures !(m[i] == '\n' && m[j] == '\n') {
      assert m[i] in m;
    }
  }

  lemma {:induction false} NoNewlinePairNotOccurs(s: string)
    requires NoNewlinePair(s)
    ensures !Occurs(s, "\n\n")
    decreases |s|
  {
    if s != [] {
      assert |s| < 2 || !(s[0] == '\n' && s[1] == '\n');
      NoNewlinePairNotOccurs(s[1..]);
    }
  }

  /** No output of the converter holds `\n\n`: every such pair has become
      a paragraph break, and the leading and trailing passes only ever
      replace a newline by markup without one. */
  lemma ParagraphsNoNewlinePair(s: string)
    ensures NoNewlinePair(ParagraphPasses(s))
  {
    MarkupInert();
    NewlinePairsGone(s, PARA_BREAK);
    var r := BreakPass(s);
    var u := LeadingPass(r);
    if r != [] && r[0] == '\n' {
      NoNewlineNoPair(PARA_OPEN);
      NoNewlinePairJoin(PARA_OPEN, r[1..]);
    }
    if u != [] && u[|u| - 1] == '\n' {
      NoNewlineNoPair(PARA_CLOSE);
      NoNewlinePairJoin(u[..|u| - 1], PARA_CLOSE);
    }
  }

  /** After the break pass, a newline is left at the very start exactly when
      the input starts with a newline that is not part of a pair; that is
      the only case in which an opening paragraph tag is emitted. */
  lemma LeadingNewline(s: string)
    ensures var r := BreakPass(s);
      (r != [] && r[0] == '\n') <==> (s != [] && s[0] == '\n' && !StartsWith(s, "\n\n"))
  {
    MarkupInert();
    NewlinePairsGone(s, PARA_BREAK);
  }

  /** Text without `\n\n` and without a newline at either end passes the
      paragraph passes unchanged: single newlines are kept as they are. */
  lemma ParagraphsKeep(s: string)
    requires NoNewlinePair(s)
    requires s == [] || (s[0] != '\n' && s[|s| - 1] != '\n')
    ensures ParagraphPasses(s) == s
  {
    NoNewlinePairNotOccurs(s);
    LiteralIdentity(s, "\n\n", PARA_BREAK);
  }

  /** `\n\n` between two newline-free texts becomes one close-then-open
      pair; no opening tag is put before the first. */
  lemma ParagraphBreak(a: string, b: string)
    requires '\n' !in a && '\n' !in b
    ensures ParagraphPasses(a + "\n\n" + b) == a + PARA_BREAK + b
  {
    MarkupInert();
    LiteralReplaces(a, b, "\n\n", PARA_BREAK);
    LiteralCopies(b, [], "\n\n", PARA_BREAK);
    assert b + [] == b;
    LiteralPassEmpty();
    var r := a + PARA_BREAK + b;
    assert r[0] == (if a == [] then PARA_BREAK[0] else a[0]);
    assert r[|r| - 1] == (if b == [] then PARA_BREAK[|PARA_BREAK| - 1] else b[|b| - 1]);
  }

  lemma LiteralPassEmpty()
    ensures LiteralPass([], "\n\n", PARA_BREAK) == []
  {
  }

  /** Text framed by a newline on each side, with none inside, becomes one
      paragraph. */
  lemma ParagraphWrap(x: string)
    requires x != [] && '\n' !in x
    ensures ParagraphPasses("\n" + x + "\n") == PARA_OPEN + x + PARA_CLOSE
  {
    var s := "\n" + x + "\n";
    FramedNoNewlinePair(x);
    NoNewlinePairNotOccurs(s);
    LiteralIdentity(s, "\n\n", PARA_BREAK);
    var u := PARA_OPEN + s[1..];
    assert s[1..] == x + "\n";
    ConsAssoc(PARA_OPEN, x, "\n");
    assert u[..|u| - 1] == PARA_OPEN + x;
  }

  lemma FramedNoNewlinePair(x: string)
    requires x != [] && '\n' !in x
    ensures NoNewlinePair("\n" + x + "\n")
  {
    NoNewlineNoPair(x);
    assert x[0] in x && x[|x| - 1] in x;
    NoNewlinePairJoin("\n", x);
    NoNewlinePairJoin("\n" + x, "\n");
  }

  // ---------------------------------------------------------------------------
  // The whole converter

  lemma FormatEmpty()
    ensures FormatMarkdown("") == ""
  {
  }

  lemma RenderPlain(l: string)
    requires PlainLine(l)
    ensures RenderLine(l) == l
  {
    HeadingLevels(l);
    SpanAbsent(l, "**", STRONG_OPEN, STRONG_CLOSE);
    SpanAbsent(l, "*", EM_OPEN, EM_CLOSE);
    SpanAbsent(l, "`", CODE_OPEN, CODE_CLOSE);
  }

  /** Text whose lines use no markdown, with no `\n\n` and no newline at
      either end, is returned unchanged. */
  lemma FormatPlain(text: string)
    requires EveryLine(text, PlainLine)
    requires NoNewlinePair(text)
    requires text == [] || (text[0] != '\n' && text[|text| - 1] != '\n')
    ensures FormatMarkdown(text) == text
  {
    RenderIdentity(text);
    FormatByLines(text);
    ParagraphsKeep(text);
  }

  /** Passes one to seven leave text whose lines use no markdown unchanged. */
  lemma RenderIdentity(text: string)
    requires EveryLine(text, PlainLine)
    ensures PerLine(text, RenderLine) == text
  {
    PlainLinesRender();
    PerLineIdentity(text, RenderLine, PlainLine);
  }

  lemma PlainLinesRender()
    ensures forall l :: LineFree(l) && PlainLine(l) ==> RenderLine(l) == l
  {
    forall l | LineFree(l) && PlainLine(l) ensures RenderLine(l) == l {
      RenderPlain(l);
    }
  }

  /** A single heading line becomes exactly its heading element. */
  lemma FormatHeadingLine(x: string)
    requires LineFree(x) && '*' !in x && '`' !in x
    ensures FormatMarkdown("# " + x) == H1_OPEN + x + H1_CLOSE
  {
    var l := "# " + x;
    var h := H1_OPEN + x + H1_CLOSE;
    LineFreeAppend("# ", x);
    RenderHeadingLine(x);
    PerLineOfLine(l, RenderLine);
    FormatByLines(l);
    PlainFacts(h);
    NoNewlineNoPair(h);
    assert PlainChar(h[0]) && PlainChar(h[|h| - 1]);
    ParagraphsKeep(h);
  }

  /** Passes one to seven turn the heading line `# X` into its h1 element. */
  lemma RenderHeadingLine(x: string)
    requires LineFree(x) && '*' !in x && '`' !in x
    ensures var h := H1_OPEN + x + H1_CLOSE; RenderLine("# " + x) == h && Plain(h)
  {
    var l := "# " + x;
    var h := H1_OPEN + x + H1_CLOSE;
    assert l[2..] == x;
    HeadingLevels(l);
    H1MarkupInert();
    PlainOf(x);
    PlainWrap(H1_OPEN, x, H1_CLOSE);
    PlainFacts(h);
    SpanAbsent(h, "**", STRONG_OPEN, STRONG_CLOSE);
    SpanAbsent(h, "*", EM_OPEN, EM_CLOSE);
    SpanAbsent(h, "`", CODE_OPEN, CODE_CLOSE);
    assert h[0] == H1_OPEN[0];
    LineRewriteMisses(h, "- ", LI_OPEN, LI_CLOSE);
  }

  /** Only `\n\n` breaks paragraphs: a blank line written with `\r\n` line
      ends passes through unchanged. */
  lemma CrLfBlankLineKept(a: string, b: string)
    requires LineFree(a) && LineFree(b) && PlainLine(a) && PlainLine(b) && b != []
    ensures FormatMarkdown(a + "\r\n\r\n" + b) == a + "\r\n\r\n" + b
  {
    var t := a + "\r\n\r\n" + b;
    CrLfLines(a, b);
    CrLfNoPair(a, b);
    assert t[0] == (if a == [] then '\r' else a[0]);
    assert t[|t| - 1] == b[|b| - 1];
    FormatPlain(t);
  }

  lemma CrLfLines(a: string, b: string)
    requires LineFree(a) && LineFree(b) && PlainLine(a) && PlainLine(b)
    ensures EveryLine(a + "\r\n\r\n" + b, PlainLine)
  {
    var e: string := [];
    assert PlainLine(e);
    LineEndSkips(b, []);
    assert b + [] == b && b[..|b|] == b;
    var t4 := e + ['\n'] + b;
    var t3 := e + ['\r'] + t4;
    var t2 := e + ['\n'] + t3;
    EveryLineCons(e, '\n', b, PlainLine);
    EveryLineCons(e, '\r', t4, PlainLine);
    EveryLineCons(e, '\n', t3, PlainLine);
    EveryLineCons(a, '\r', t2, PlainLine);
    CrLfShape(a, b);
  }

  lemma CrLfShape(a: string, b: string)
    ensures a + ['\r'] + ([] + ['\n'] + ([] + ['\r'] + ([] + ['\n'] + b)))
         == a + "\r\n\r\n" + b
  {
    assert [] + ['\n'] + b == ['\n'] + b;
    assert [] + ['\r'] + (['\n'] + b) == ['\r', '\n'] + b;
    assert [] + ['\n'] + (['\r', '\n'] + b) == ['\n', '\r', '\n'] + b;
    assert "\r\n\r\n" == ['\r', '\n', '\r', '\n'];
    assert a + ['\r'] + (['\n', '\r', '\n'] + b) == a + ['\r', '\n', '\r', '\n'] + b;
  }

  lemma CrLfNoPair(a: string, b: string)
    requires LineFree(a) && LineFree(b)
    ensures NoNewlinePair(a + "\r\n\r\n" + b)
  {
    var t := a + "\r\n\r\n" + b;
    forall i, j | 0 <= i < j < |t| && j == i + 1 ensures !(t[i] == '\n' && t[j] == '\n') {
      if i < |a| {
        assert t[i] == a[i];
      } else if i < |a| + 4 {
        assert t[i] == "\r\n\r\n"[i - |a|];
        if j < |a| + 4 {
          assert t[j] == "\r\n\r\n"[j - |a|];
        } else {
          assert t[j] == b[0];
        }
      } else {
        assert t[i] == b[i - |a| - 4];
      }
    }
  }

  /** Heading text is not protected either: `# **X**` becomes a strong
      element inside the h1 element. */
  lemma FormatBoldHeading(x: string)
    requires LineFree(x) && '*' !in x && '`' !in x
    ensures FormatMarkdown("# " + "**" + x + "**")
         == H1_OPEN + STRONG_OPEN + x + STRONG_CLOSE + H1_CLOSE
  {
    var l := "# " + "**" + x + "**";
    var h := H1_OPEN + STRONG_OPEN + x + STRONG_CLOSE + H1_CLOSE;
    LineFreeAppend("# ", "**");
    LineFreeAppend("# " + "**", x);
    LineFreeAppend("# " + "**" + x, "**");
    RenderBoldHeadingLine(x);
    PerLineOfLine(l, RenderLine);
    FormatByLines(l);
    PlainFacts(h);
    NoNewlineNoPair(h);
    assert PlainChar(h[0]) && PlainChar(h[|h| - 1]);
    ParagraphsKeep(h);
  }

  /** Passes one to seven turn `# **X**` into an h1 element around a strong
      element. */
  lemma RenderBoldHeadingLine(x: string)
    requires LineFree(x) && '*' !in x && '`' !in x
    ensures var h := H1_OPEN + STRONG_OPEN + x + STRONG_CLOSE + H1_CLOSE;
      RenderLine("# " + "**" + x + "**") == h && Plain(h)
  {
    var l := "# " + "**" + x + "**";
    var strong := STRONG_OPEN + x + STRONG_CLOSE;
    var h := H1_OPEN + STRONG_OPEN + x + STRONG_CLOSE + H1_CLOSE;
    var g := H1_OPEN + "**" + x + "**" + H1_CLOSE;
    assert l[2..] == "**" + x + "**";
    HeadingLevels(l);
    Assoc5(H1_OPEN, "**", x, "**", H1_CLOSE);
    assert HeadingLine(l) == g;
    H1MarkupInert();
    StrongMarkupInert();
    PlainFacts(H1_OPEN);
    PlainFacts(H1_CLOSE);
    SpanWrapsAfter(H1_OPEN, x, H1_CLOSE, "**", STRONG_OPEN, STRONG_CLOSE);
    SpanAbsent(H1_CLOSE, "**", STRONG_OPEN, STRONG_CLOSE);
    assert BoldPass(g) == h;
    PlainOf(x);
    PlainWrap(STRONG_OPEN, x, STRONG_CLOSE);
    PlainWrap(H1_OPEN, strong, H1_CLOSE);
    AppendAssoc(H1_OPEN, STRONG_OPEN, x, STRONG_CLOSE);
    assert H1_OPEN + strong + H1_CLOSE == h;
    PlainFacts(h);
    SpanAbsent(h, "*", EM_OPEN, EM_CLOSE);
    SpanAbsent(h, "`", CODE_OPEN, CODE_CLOSE);
    assert h[0] == H1_OPEN[0];
    LineRewriteMisses(h, "- ", LI_OPEN, LI_CLOSE);
  }

  lemma PlainOf(x: string)
    requires LineFree(x) && '*' !in x && '`' !in x
    ensures Plain(x)
  {
    forall i | 0 <= i < |x| ensures PlainChar(x[i]) {
      assert x[i] in x;
    }
  }

  lemma PlainWrap(a: string, x: string, b: string)
    requires Plain(a) && Plain(x) && Plain(b)
    ensures Plain(a + x + b)
  {
    var s := a + x + b;
    forall i | 0 <= i < |s| ensures PlainChar(s[i]) {
      if i < |a| {
        assert s[i] == a[i];
      } else if i < |a| + |x| {
        assert s[i] == x[i - |a|];
      } else {
        assert s[i] == b[i - |a| - |x|];
      }
    }
  }

  // ---------------------------------------------------------------------------
  // The dialog

  const DEFAULT_BUTTON_TEXT := "View Design Document"

  /** The reader dialog: fixed title, content and button label, and the open
      flag that the dialog component writes through `OnOpenChange`. */
  class ReaderDialog {
    const title: string
    const content: string
    const buttonText: string
    var isOpen: bool

    /** The dialog starts closed; the button label defaults when omitted. */
    constructor(title: string, content: string, buttonText: Option<string>)
      ensures this.title == title && this.content == content
      ensures this.buttonText == (if buttonText.Some? then buttonText.value else DEFAULT_BUTTON_TEXT)
      ensures !isOpen
    {
      this.title := title;
      this.content := content;
      this.buttonText := if buttonText.Some? then buttonText.value else DEFAULT_BUTTON_TEXT;
      isOpen := false;
    }

    method OnOpenChange(open: bool)
      modifies this
      ensures isOpen == open
    {
      isOpen := open;
    }

    /** The HTML the dialog body shows: the converted content, which never
        holds `\n\n`. */
    function Body(): (html: string)
      ensures html == FormatMarkdown(content)
      ensures NoNewlinePair(html)
    {
      FormatMarkdown(content)
    }
  }
}
