# Portfolio website: markdown reader and navigation bar

A Dafny model of the two interactive components of the portfolio site.

**Markdown reader** (`components/markdown-reader.tsx`). This is a dialog that shows a design document. Its body comes from `formatMarkdown`, which chains ten regular-expression replacements; the first replacement runs first.

| # | pattern | model |
|---|---|---|
| 1–3 | `/^### (.*$)/gim`, `/^## (.*$)/gim`, `/^# (.*$)/gim` | `H3Pass`, `H2Pass`, `H1Pass`, built on `Rewrite.AnchoredPass` |
| 4–6 | `/\*\*(.*?)\*\*/g`, `/\*(.*?)\*/g`, `` /`(.*?)`/g `` | `BoldPass`, `ItalicPass`, `CodePass`, built on `Rewrite.SpanPass` |
| 7 | `/^- (.*$)/gim` | `ListPass` |
| 8 | `/\n\n/g` | `BreakPass`, built on `Rewrite.LiteralPass` |
| 9 | `/^\n/` | `LeadingPass` |
| 10 | `/\n$/` | `TrailingPass` |

Each pass is written as the left-to-right scan that JavaScript's `String.prototype.replace` performs. The scans follow these rules:

- Lines end at one of JavaScript's four line terminators: `\n`, `\r`, U+2028 and U+2029.
- A multiline `^` holds at the start of the input and after each terminator.
- `.` never crosses a terminator.
- `(.*?)` takes the shortest run, the leftmost match wins, and matches do not overlap.
- Passes 9 and 10 have no `m` flag, so they act only at the very start and the very end of the string.
- The `i` flag changes nothing, because the patterns contain no letters.

The dialog's open flag starts false. The dialog component writes it through `onOpenChange`.

**Navigation bar** (`components/navbar.tsx`). Its state is the mobile menu flag, which starts closed, and the theme name.

- The menu button negates the flag.
- A mobile-menu link closes the menu.
- A desktop link changes nothing.
- Both theme buttons apply one rule: `dark` becomes `light`, and anything else becomes `dark`.
- The close icon and the mobile link list are drawn exactly when the menu is open.

The state machine is the pure function `Navbar.Next`. The class `Navbar.NavigationBar` holds the two fields, and each of its methods is proved to move the state by `Next`.

**What this converter does not do.** Each point is proved about the code:

- Code spans do not protect their contents. The bold and italic passes run before the code pass, so markup between backticks is converted anyway (`CodeAfterEmphasis`).
- Heading text is not protected either. `# **x**` becomes a strong element inside the h1 element (`FormatBoldHeading`).
- An unmatched `**` does not stay literal. The italic pass pairs its two asterisks and leaves an empty `em` element (`LoneDoubleStar`).
- A single newline inside text creates no paragraph. `a\nb` comes out unchanged (`ParagraphsKeep`).
- A paragraph break gets no opening tag before its first paragraph. `a\n\nb` becomes `a</p><p …>b` (`ParagraphBreak`).
- Only `\n\n` counts as a paragraph break. A blank line written with `\r\n` line ends passes through as it is (`CrLfBlankLineKept`).

## Model

| member | source | states |
|---|---|---|
| Rewrite.LineRewrite | components/markdown-reader.tsx:21-23 | One line under a `/^M(.*$)/gm` replacement: open tag, rest of the line, close tag when the line starts with the marker, the line itself otherwise. |
| Rewrite.AnchoredPass | components/markdown-reader.tsx:21-27 | The global multiline scan of a `^`-anchored pattern over the whole text, remembering whether it stands at a line start. |
| Rewrite.FindClose | components/markdown-reader.tsx:24-26 | The position of the first closing delimiter before the line ends, or none; this is what the lazy `(.*?)` matches up to. |
| Rewrite.SpanPass | components/markdown-reader.tsx:24-26 | The global scan of a `D(.*?)D` pattern: leftmost match first, copying text before it, resuming after it. |
| Rewrite.LiteralPass | components/markdown-reader.tsx:28 | The global scan of a literal pattern: every non-overlapping occurrence, leftmost first, is replaced. |
| Rewrite.AnchoredOnLine | components/markdown-reader.tsx:21-23 | On a single line, a `/^M(.*$)/gm` replacement turns a line that starts with the marker into open tag + rest of line + close tag. It leaves any other line unchanged. |
| Rewrite.AnchoredSplit | components/markdown-reader.tsx:21-23 | A match never crosses a line terminator, and `^` holds again right after one. The scan of `a + [c] + t` is the scan of `a`, then `c`, then the scan of `t` from a line start. |
| Rewrite.AnchoredPerLine | components/markdown-reader.tsx:21-27 | The anchored scan equals rewriting every line on its own and keeping every terminator in place. |
| Rewrite.AnchoredIdentity | components/markdown-reader.tsx:21-23 | Text where no line begins with the marker is returned unchanged. |
| Rewrite.FindCloseIsLeast | components/markdown-reader.tsx:24-26 | The lazy `(.*?)` finds the first closing delimiter after the opening one on the same line. When it finds none, no delimiter follows before the line ends. |
| Rewrite.SpanLineFree | components/markdown-reader.tsx:24-26 | A span replacement applied to one line yields one line, provided the tags hold no terminator. |
| Rewrite.SpanCopies | components/markdown-reader.tsx:24-26 | Text without the delimiter's first character is copied as it is, and the scan goes on after it. |
| Rewrite.SpanIdentity | components/markdown-reader.tsx:24-26 | Text in which the delimiter never occurs is returned unchanged. |
| Rewrite.SpanWraps | components/markdown-reader.tsx:24-26 | Delimiter, text free of delimiter characters on one line, delimiter: this becomes open tag + text + close tag, and the scan resumes right after it. |
| Rewrite.SpanWrapsAfter | components/markdown-reader.tsx:24-26 | The same holds after a prefix that the scan copies. |
| Rewrite.Unpaired | components/markdown-reader.tsx:24-26 | A single delimiter with no delimiter character on either side is left literal. |
| Rewrite.SpanSplit | components/markdown-reader.tsx:24-26 | No span match crosses a line terminator: the scan of `a + [c] + t` is the scan of `a`, then `c`, then the scan of `t`. |
| Rewrite.SpanPerLine | components/markdown-reader.tsx:24-26 | The span scan equals rewriting every line on its own. |
| Rewrite.LiteralIdentity | components/markdown-reader.tsx:28 | Text that does not contain `\n\n` is unchanged by the break pass. |
| Rewrite.LiteralCopies | components/markdown-reader.tsx:28 | Text without the pattern's first character is copied, and the scan goes on after it. |
| Rewrite.LiteralReplaces | components/markdown-reader.tsx:28 | The first occurrence is replaced and the scan resumes after it, so occurrences do not overlap. |
| Rewrite.NewlinePairsGone | components/markdown-reader.tsx:28 | After the break pass no `\n\n` is left. The result starts with a newline only when the input starts with a lone one. |
| MarkdownReader.H3Pass | components/markdown-reader.tsx:21 | The `### ` pass. |
| MarkdownReader.H2Pass | components/markdown-reader.tsx:22 | The `## ` pass. |
| MarkdownReader.H1Pass | components/markdown-reader.tsx:23 | The `# ` pass. |
| MarkdownReader.BoldPass | components/markdown-reader.tsx:24 | The `**…**` pass. |
| MarkdownReader.ItalicPass | components/markdown-reader.tsx:25 | The `*…*` pass. |
| MarkdownReader.CodePass | components/markdown-reader.tsx:26 | The backtick pass. |
| MarkdownReader.ListPass | components/markdown-reader.tsx:27 | The `- ` list-item pass. |
| MarkdownReader.BreakPass | components/markdown-reader.tsx:28 | The `\n\n` paragraph-break pass. |
| MarkdownReader.LeadingPass | components/markdown-reader.tsx:29 | `/^\n/` without the multiline flag: only a newline at the very start becomes an opening paragraph tag. |
| MarkdownReader.TrailingPass | components/markdown-reader.tsx:30 | `/\n$/` without the multiline flag: only a newline at the very end becomes a closing paragraph tag. |
| MarkdownReader.LinePasses | components/markdown-reader.tsx:21-27 | Passes one to seven, in source order. |
| MarkdownReader.ParagraphPasses | components/markdown-reader.tsx:28-30 | Passes eight to ten, in source order. |
| MarkdownReader.FormatMarkdown | components/markdown-reader.tsx:19-31 | The ten passes composed in source order. Its output never holds two adjacent `\n`. |
| MarkdownReader.MarkupInert | components/markdown-reader.tsx:21-30 | Every tag a pass inserts starts with `<` and holds no `*`, no backtick and no line terminator, so no later pass can act on it. |
| MarkdownReader.HeadingPassesPerLine | components/markdown-reader.tsx:21-23 | The three heading passes together rewrite each line by `HeadingLine`. |
| MarkdownReader.InlinePassesPerLine | components/markdown-reader.tsx:24-26 | The bold, italic and code passes together rewrite each line by `InlineLine`. |
| MarkdownReader.LinePassesPerLine | components/markdown-reader.tsx:21-27 | Passes one to seven keep every terminator in place and rewrite each line by `RenderLine`, independently of the other lines. |
| MarkdownReader.FormatByLines | components/markdown-reader.tsx:19-31 | The converter is the three paragraph passes applied to the line-by-line rendering of the input. |
| MarkdownReader.HeadingLevels | components/markdown-reader.tsx:21-23 | `### ` yields h3, `## ` yields h2 and `# ` yields h1, each from the text after the marker. A heading produced by one pass is never rewritten by a later heading pass, and a line with no marker is kept. |
| MarkdownReader.HeadingLiteral | components/markdown-reader.tsx:21-23 | A line that starts with four or more `#`, or with a `#` followed by neither `#` nor a space, is left as it is. |
| MarkdownReader.MarkerExclusion | components/markdown-reader.tsx:21-23 | A line that starts with a shorter heading marker never starts with a longer one. |
| MarkdownReader.BoldWraps | components/markdown-reader.tsx:24 | `**X**` on one line, with no `*` in `X`, becomes one strong element. |
| MarkdownReader.ItalicWraps | components/markdown-reader.tsx:25 | `*X*` becomes one em element. |
| MarkdownReader.CodeWraps | components/markdown-reader.tsx:26 | A backtick pair on one line becomes one code element. |
| MarkdownReader.ItalicSkipsStrong | components/markdown-reader.tsx:24-25 | The italic pass copies a strong element's tags untouched. |
| MarkdownReader.UnpairedStar | components/markdown-reader.tsx:24-26 | A lone `*` stays literal through all three span passes. |
| MarkdownReader.UnpairedBacktick | components/markdown-reader.tsx:26 | A lone backtick stays literal. |
| MarkdownReader.LoneDoubleStar | components/markdown-reader.tsx:24-25 | A lone `**` becomes an empty em element. |
| MarkdownReader.EmptyEmphasis | components/markdown-reader.tsx:25 | The italic pass turns `**` into an empty em element. |
| MarkdownReader.CodeAfterEmphasis | components/markdown-reader.tsx:24-26 | `**X**` between backticks becomes a strong element inside a code element: code spans do not protect their contents. |
| MarkdownReader.BoldInsideCode | components/markdown-reader.tsx:24 | The bold pass rewrites `**X**` even when it lies between backticks. |
| MarkdownReader.ListItemsSeparate | components/markdown-reader.tsx:27 | Two consecutive item lines become two separate items. Nothing groups or merges them. |
| MarkdownReader.ParagraphsNoNewlinePair | components/markdown-reader.tsx:28-30 | The output of the paragraph passes never holds `\n\n`. |
| MarkdownReader.LeadingNewline | components/markdown-reader.tsx:28-29 | An opening paragraph tag is put first exactly when the input starts with a newline that is not part of a pair. |
| MarkdownReader.ParagraphsKeep | components/markdown-reader.tsx:28-30 | Text with no `\n\n` and no newline at either end is kept, single newlines included. |
| MarkdownReader.ParagraphBreak | components/markdown-reader.tsx:28-30 | `a\n\nb` becomes `a`, then close and open paragraph tags, then `b`. No tag is put before `a` or after `b`. |
| MarkdownReader.ParagraphWrap | components/markdown-reader.tsx:28-30 | `\nX\n`, with no newline inside `X`, becomes one paragraph. |
| MarkdownReader.FramedNoNewlinePair | components/markdown-reader.tsx:28 | `\nX\n` holds no `\n\n` when `X` holds no newline. |
| MarkdownReader.FormatEmpty | components/markdown-reader.tsx:19-31 | The empty text converts to the empty string. |
| MarkdownReader.RenderPlain | components/markdown-reader.tsx:21-27 | A line with no markdown is kept by passes one to seven. |
| MarkdownReader.RenderIdentity | components/markdown-reader.tsx:21-27 | Text whose lines have no markdown is kept by passes one to seven. |
| MarkdownReader.FormatPlain | components/markdown-reader.tsx:19-31 | Text with no markdown, no `\n\n` and no newline at either end is returned unchanged. |
| MarkdownReader.RenderHeadingLine | components/markdown-reader.tsx:23 | The line `# X` becomes exactly its h1 element under passes one to seven. |
| MarkdownReader.FormatHeadingLine | components/markdown-reader.tsx:19-31 | A single `# X` line converts to exactly its h1 element, with no paragraph tags. |
| MarkdownReader.RenderBoldHeadingLine | components/markdown-reader.tsx:23-24 | Under passes one to seven, `# **X**` becomes an h1 element around a strong element. |
| MarkdownReader.FormatBoldHeading | components/markdown-reader.tsx:19-31 | `# **X**` converts to exactly an h1 element around a strong element. The inline passes act on heading text too. |
| MarkdownReader.CrLfBlankLineKept | components/markdown-reader.tsx:28-30 | Two plain lines separated by `\r\n\r\n` come out unchanged, because the paragraph passes match only `\n\n` and a newline at either end of the whole text. |
| MarkdownReader.ReaderDialog.constructor | components/markdown-reader.tsx:15-16 | The dialog starts closed, and the button label defaults to `View Design Document`. |
| MarkdownReader.ReaderDialog.OnOpenChange | components/markdown-reader.tsx:34 | The dialog's open flag becomes whatever the dialog reports. |
| MarkdownReader.ReaderDialog.Body | components/markdown-reader.tsx:50 | The body is the converted content, which holds no `\n\n`. |
| Navbar.ProjectNamesDistinct | components/navbar.tsx:13-17 | The three project links have distinct names, which serve as list keys, and distinct targets. |
| Navbar.ToggledTheme | components/navbar.tsx:43 | The button always yields `light` or `dark`, and it yields `light` exactly when the theme was `dark`. |
| Navbar.ThemeToggleTwice | components/navbar.tsx:57 | Two presses restore the theme exactly when it was `light` or `dark`. From any other value, including no theme, they end at `light`. |
| Navbar.Next | components/navbar.tsx:43-80 | The state machine: the menu button flips the flag, a mobile link clears it, a desktop link changes nothing, either theme button toggles the theme. |
| Navbar.Run | components/navbar.tsx:43-80 | The state after a run of clicks, first click first. A non-empty run ends with its last click applied to the state the rest of the run left. |
| Navbar.MenuToggleTwice | components/navbar.tsx:64 | The menu button flips the flag, and two presses restore the state. |
| Navbar.MobileLinkCloses | components/navbar.tsx:80 | A mobile link closes the menu whatever its prior state and keeps the theme. Following one twice is the same as following it once. |
| Navbar.DesktopLinkKeeps | components/navbar.tsx:30-38 | A desktop link changes no state. |
| Navbar.ThemeAndMenuIndependent | components/navbar.tsx:43-80 | The theme button keeps the menu flag, and no other event changes the theme. |
| Navbar.RunTheme | components/navbar.tsx:43-57 | After any run of clicks, the theme is the initial one, `light` or `dark`. Without a theme click it is the initial one. |
| Navbar.RunMenu | components/navbar.tsx:64-80 | Without menu-button or mobile-link clicks the menu flag is kept. After a run that ends with a mobile link, the menu is closed. |
| Navbar.ToggleIcon | components/navbar.tsx:65 | The close icon is shown exactly when the menu is open, and the menu icon otherwise. |
| Navbar.MobileMenu | components/navbar.tsx:72-84 | Mobile links are drawn exactly when the menu is open, and then they are all three projects. |
| Navbar.RowsAgree | components/navbar.tsx:30-38 | No event changes the desktop row. The open mobile menu, and only the open one, shows the same links as the desktop row, because both are drawn from one list. |
| Navbar.NavigationBar.constructor | components/navbar.tsx:10-11 | The menu starts closed, and the theme is the one given. |
| Navbar.NavigationBar.PressMenuButton | components/navbar.tsx:64 | The new state is `Next(old state, MenuButton)`. |
| Navbar.NavigationBar.ClickMobileLink | components/navbar.tsx:75-83 | Returns the link's target. The new state is `Next(old state, MobileLink)`. |
| Navbar.NavigationBar.ClickDesktopLink | components/navbar.tsx:30-38 | Returns the link's target and changes no state. |
| Navbar.NavigationBar.PressThemeButton | components/navbar.tsx:57 | The new state is `Next(old state, ThemeButton)`. The desktop button (line 43) runs the same handler. |

## Left out

- **Page layout and styling.** Class names, the Sun/Moon icon animation (CSS `dark:` variants), the sticky bar and the logo link are not modelled. They are presentation with no state.
- **Theme storage.** Persistence, `system` preference resolution and applying the theme to the page belong to the `next-themes` library. The theme is modelled as a plain field, and "no theme" is `None`.
- **Navigation.** Following a link is modelled only by returning its target. The router and the pages behind the links are not part of this model.
- **Dialog mechanics.** The dialog's trigger button, the scroll area, focus handling and the outside-click or escape paths that report a close are left out. The model only records the flag the dialog component reports through `OnOpenChange`.
- **Inserting the HTML.** The converted HTML is not sanitized before it is inserted with `dangerouslySetInnerHTML`, and the model does not say what a browser makes of it.
- **General regular expressions.** There is no general regular-expression engine. Only the three shapes of pattern the converter uses are modelled.
- **The rest of the repository.** No page among the repository's files calls `MarkdownReader`, so the text it would be given is not modelled.
- **Strings.** Dafny strings are sequences of Unicode scalar values, while JavaScript strings are sequences of UTF-16 code units. This makes no difference for the ASCII markers and delimiters the converter matches. A lone surrogate cannot be represented.
