# IMP tutorial tools in Dafny

This project models the text-processing core of the IMP tutorial tools:

- **The notebook processor** (`notebook/process_notebook.py`). It turns a notebook
  template into a Doxygen markdown page, a script and Jupyter notebooks.
  - **Table of contents.** `TableOfContents` numbers anchors for headings that lack
    one. It collects `(level, title, anchor)` entries and enforces the nesting rules
    (the first heading is level 1; a heading goes at most one level deeper than the
    one before it). It renders the entries as an indented markdown list.
  - **Cell selection.** `get_cell_subset` and its three wrappers pick the cells of
    each output by the `%%…exclude` and `%%…only` markers on a cell's first line.
  - **Per-line rewriting.**
    - `patch_jupyter` drops directive lines, expands `[TOC]`, turns `{#id}` anchors
      into HTML anchors and `@file X` into `X.ipynb`.
    - `write_cell` drops directive and `%matplotlib` lines, turns `@file X` into
      `X.html` and maps fence languages (`python` to `py`, `c++` to `cpp`). A
      `#%%colabonly` line stops the cell early.
  - **`RefLinks`.** A name-to-URL dictionary filled from Doxygen tag-file records and
    Python inventories. `fix_links` rewrites the markup of a markdown line in three
    passes: `%%include`, then double-backtick links, then `@ref` links.
- **The tutorial index** (`www/showall.py`):
  - repository names normalised to tutorial names;
  - the dependency sets of tutorials and the order `Tutorial.__lt__`;
  - the `show_in_index` filter of `print_tutorial_list`.
- **The documentation builder** (`doxygen/make-docs.py`):
  - the title found by `read_yaml_file` and `get_title`;
  - the line-by-line rewrite of doxygen's default configuration in `make_doxyfile`.

## How the model is built

- **Regular expressions.** Each regex is a deterministic matcher at the start of a
  string (`Patterns`). `re.sub` is a left-to-right scan:
  - `Patterns.SubAll` when the replacement can raise;
  - `Patterns.Rewrite` when it cannot.
- **Where state changes in the source, the model changes state too.**
  - `TableOfContents` and `RefLinks` are classes. Their methods are proved against
    specification functions: `AddAnchors`, `ParseCellResult`, and `ApplyWrites` over
    the list of dictionary writes each tag record makes.
  - The loops of `write_cell`, `print_tutorial_list`, `read_yaml_file`, `get_title`
    and `make_doxyfile` are methods with loop invariants.
- **Pure parts are functions.** Cell selection, `patch_jupyter`, the backtick and
  `@ref` replacements, `_filter_repo_name` and `__lt__` are functions.
- **Files are maps.** A map from path to contents stands for the file system.
  Doxygen's default configuration and its exit status are parameters.

Some quirks of the source are kept and stated as lemmas:

- **Headings lose their line break.** `add_missing_anchors` rewrites an anchorless
  heading without its trailing line break: `\s*$` consumes the break and the
  replacement does not put it back (`TocProperties.RewrittenHeadingHasNoBreak`).
- **A tilde can stay in the link text.** A backtick link ``` ``~x`` ``` whose name has
  no `.` and no `::` shows `~x`, tilde included, as its link text
  (`RefLinksProperties.TildeWithoutScopeKeepsTilde`).
- **The tutorial order is not transitive.** `Tutorial.__lt__` is not transitive, even
  over acyclic dependencies (`ShowAllProperties.LessNotTransitive`).
- **Two names keep their affix.** `_filter_repo_name` maps `imp_tutorial` to
  `rnapolii_stalk`. So `imp_` + `tutorial` and `imp` + `_tutorial` are not stripped
  the way other names are; `PrefixRemoved` and `SuffixRemoved` exclude exactly those
  two names.

## Model

| member | source | states |
|---|---|---|
| Text.LastPart | notebook/process_notebook.py:150 | `s.split(sep)[-1]` is a suffix of `s` that holds no `sep` |
| Text.FirstIndex | doxygen/make-docs.py:41 | the index found is an occurrence of the separator; none is found only when the string does not contain it |
| Text.Replace | notebook/process_notebook.py:157 | text without an occurrence of `from` is returned as it is; replacing one character by text without it leaves none of it |
| Text.RStrip | doxygen/make-docs.py:41 | the result is a prefix, what is cut is white space, and the result does not end in white space |
| Text.LStrip | doxygen/make-docs.py:41 | the result is a suffix, what is cut is white space, and the result does not start with white space |
| Text.NatToString | notebook/process_notebook.py:407 | `%d` gives a non-empty string of decimal digits |
| Text.NatToStringInjective | notebook/process_notebook.py:407 | different counters give different `%d` strings |
| TextProperties.ReplaceAt | notebook/process_notebook.py:157 | `replace` copies the text before an occurrence whose first character does not occur earlier, writes `to` for it, and goes on after it |
| TextProperties.DotBecomesScope | notebook/process_notebook.py:157 | `p.q` with no other dot is spelled `p::q` by `replace('.', '::')` |
| TextProperties.LastPartAfterLast | notebook/process_notebook.py:150 | `split(d)[-1]` of text ending in `d` and then text without `d` is that last text |
| Patterns.RunEnd | notebook/process_notebook.py:67-69 | a greedy run of a character class stops exactly at the first character outside the class |
| Patterns.MatchKeyword | notebook/process_notebook.py:67-69 | a match of `kw\s+([^\s)]+)` is `kw`, a run of white space, then the group: a non-empty run without white space and `)` that ends at the end of the text, at white space or at `)` |
| Patterns.KeywordMatch | notebook/process_notebook.py:67-69 | `kw name` followed by white space, `)` or the end matches with group `name` |
| Patterns.KeywordShapeMatch | notebook/process_notebook.py:67-69 | the converse of `MatchKeyword`'s contract: any text of that shape matches, with that group and length |
| Patterns.MatchDoubleBacktick | notebook/process_notebook.py:68 | a match is two backticks, the group (a non-empty run without white space and backticks), then two backticks |
| Patterns.DoubleBacktickMatch | notebook/process_notebook.py:68 | ``` ``name`` ``` matches with group `name` |
| Patterns.MatchFence | notebook/process_notebook.py:209 | a match is three backticks and then the group, a non-empty run without white space that ends at the end of the text or at white space |
| Patterns.FenceMatch | notebook/process_notebook.py:209 | a fence followed by a language and white space matches with the language as its group |
| Patterns.MatchInlineAnchor | notebook/process_notebook.py:191 | a match is white space, `{#`, the group (a non-empty run without white space and `}`) and `}` |
| Patterns.AnchorMatch | notebook/process_notebook.py:191 | ` {#id}` matches with group `id` |
| Patterns.AnchorShapeMatch | notebook/process_notebook.py:191 | the converse of `MatchInlineAnchor`'s contract: text of the `\s*\{#name\}` shape matches with group `name` |
| Patterns.AnchorIgnoresSpacedTail | notebook/process_notebook.py:392 | an anchor starting in text that ends in a character other than white space stays within it, whatever empty or white-space-led tail follows |
| Patterns.LazyFindFirst | notebook/process_notebook.py:392 | the lazy `.*?` stops at the first position of the line from which the pattern matches |
| Patterns.LazyFindNone | notebook/process_notebook.py:392 | the lazy search fails only when the pattern matches at no position of the line |
| Patterns.LazyFindAt | notebook/process_notebook.py:392 | the first position of the line from which the pattern matches is the one found |
| Patterns.RewriteIsSubAll | notebook/process_notebook.py:170-172 | a substitution whose replacement cannot raise never fails and gives the plain rewrite |
| Patterns.SubAllFailsAtFirstBadGroup | notebook/process_notebook.py:155-160 | the substitution succeeds iff every matched group's replacement succeeds; on failure it raises the error of the first group that fails |
| Patterns.RewriteUnchanged | notebook/process_notebook.py:170-172 | text without a match is left as it is |
| Patterns.RewriteOne | notebook/process_notebook.py:170-172 | one match between match-free text is replaced by its replacement, the rest kept |
| Patterns.SubAllUnchanged | notebook/process_notebook.py:172 | text without a match succeeds unchanged even when the replacement could raise |
| Patterns.SubAllOne | notebook/process_notebook.py:172 | one match whose replacement succeeds is replaced, the rest kept |
| Patterns.SubAllFailsHere | notebook/process_notebook.py:172 | the first match whose replacement raises makes the whole substitution raise that error |
| Toc.HeadingStart | notebook/process_notebook.py:392-393 | `(#+)\s+` ends after at least one `#` and at least one white-space character, within the line; `HeadingStartShape` and `HeadingStartAt` give its shape |
| Toc.FindAnchor | notebook/process_notebook.py:392 | the lazy title ends within the text; `FindAnchorIsLazyFind` makes it the first position from which the anchor matches |
| Toc.FindAnchorIsLazyFind | notebook/process_notebook.py:392 | the title of `anchor_re` is the lazy search for `\s*\{#([^\s}]+)\}`, so `LazyFindFirst`, `LazyFindNone` and `LazyFindAt` apply to it |
| Toc.HeadingStartShape | notebook/process_notebook.py:392-393 | a heading start is a run of `#` then a maximal run of white space; none is found only when no run of `#` at the start is followed by white space |
| Toc.HeadingStartAt | notebook/process_notebook.py:392-393 | hashes, then white space up to a character that is not white space, is the heading start found |
| Toc.Numbered | notebook/process_notebook.py:400-412 | the generator keeps the number of lines |
| Toc.EntryLines | notebook/process_notebook.py:437-438 | one `' ' * level + '- [title](#anchor)'` line per entry, in order |
| Toc.TocMarkdown | notebook/process_notebook.py:434-438 | the heading line, a blank line, then exactly one line per entry, in entry order |
| Toc.TableOfContents.Markdown | notebook/process_notebook.py:434-438 | definition, no contract: `get_markdown()` is `TocMarkdown` of the current entries, whose row states its lines |
| Toc.TableOfContents.constructor | notebook/process_notebook.py:395-398 | a new table has the file number, counter 0 and no entries |
| Toc.TableOfContents.AddMissingAnchors | notebook/process_notebook.py:400-412 | the output is `AddAnchors` of the source from the old counter; the counter grows by the number of anchorless headings; the entries are unchanged |
| Toc.AddAnchors | notebook/process_notebook.py:400-412 | definition, no contract: `add_missing_anchors` from a given counter; `AddAnchorsLine`, `NumberedLine` and `GeneratedAnchorsDistinct` state its lines and anchors |
| Toc.AnchorLine | notebook/process_notebook.py:403-412 | definition, no contract: one line of `add_missing_anchors`; `AnchoredHeadingParsesBack` and `RewrittenHeadingHasNoBreak` state what a rewritten heading is |
| Toc.TableOfContents.AnchorOne | notebook/process_notebook.py:403-412 | one line: rewritten with the next `autotoc` anchor iff it is an anchorless heading, and the counter advances iff it is |
| Toc.TableOfContents.ParseCell | notebook/process_notebook.py:414-432 | new entries and error are `ParseCellResult` of the old entries; nesting stays valid; the counter is unchanged |
| Toc.ParseCellResult | notebook/process_notebook.py:414-432 | definition, no contract: a cell whose first line holds `%%nbexclude` adds nothing, otherwise `Extend` with its anchored headings; `ExtendChecksNesting` and `ExtendStopsAtFirstViolation` state the outcome |
| Toc.Extend | notebook/process_notebook.py:423-432 | definition, no contract: the loop of `parse_cell`; `ExtendChecksNesting`, `ExtendStopsAtFirstViolation` and `NestingExamples` state it |
| Toc.AppendKeepsNesting | notebook/process_notebook.py:424-432 | appending a heading keeps the entries well nested iff it follows the nesting rules after the last entry |
| TocProperties.NumberedLine | notebook/process_notebook.py:400-412 | line `i` is rewritten with the counter plus the number of anchorless headings before it, plus one |
| TocProperties.AddAnchorsLine | notebook/process_notebook.py:400-412 | `add_missing_anchors` keeps the line count, and line `i` gets number `count + (anchorless headings before i) + 1` |
| TocProperties.AutoAnchorInjective | notebook/process_notebook.py:407 | different numbers give different `autotoc` anchors within a file |
| TocProperties.GeneratedAnchorsDistinct | notebook/process_notebook.py:406-407 | two anchorless headings of one source get different anchors |
| TocProperties.AutoAnchorIsName | notebook/process_notebook.py:407 | a generated anchor is a non-empty name that `[^\s}]+` matches again |
| TocProperties.RewrittenHeadingHasNoBreak | notebook/process_notebook.py:404-408 | a rewritten heading holds no line break: the trailing `\n` is lost |
| TocProperties.AnchoredHeadingParsesBack | notebook/process_notebook.py:392-408 | the line `add_missing_anchors` writes for an anchorless heading parses back under `anchor_re` to the heading's level and title and the generated anchor |
| TocProperties.ExtendChecksNesting | notebook/process_notebook.py:423-432 | the entries stay well nested; no error is raised iff all new headings nest after the old entries, and they are then all appended |
| TocProperties.ExtendStopsAtFirstViolation | notebook/process_notebook.py:423-431 | an error comes from the first heading that breaks the rules; the headings before it are kept |
| TocProperties.NestingExamples | notebook/process_notebook.py:424-431 | levels 1,2,1 are accepted; a level-3 heading after a level-1 one raises with both headings named |
| Cells.Filter | notebook/process_notebook.py:204-206 | each line is yielded as often as the input has it if it is accepted, and never otherwise |
| Cells.FirstWhere | notebook/process_notebook.py:220-223 | the index found is the first line satisfying the test; none is found only when no line does |
| Cells.LastOnly | notebook/process_notebook.py:269 | the largest position in the bounds at which `only` starts; none only when `only` starts nowhere in them |
| Cells.OnlyMarkerFrom | notebook/process_notebook.py:269 | the `%%(\S+)only` group is non-empty and holds no white space; `CellsProperties.OnlyMarkerFromIsSearch` proves it is the group of the leftmost match, taken as long as it can be, and None iff no match exists |
| CellsProperties.OnlyMarkerFromIsSearch | notebook/process_notebook.py:269 | no group iff no match of `%%(\S+)only` starts at or after `i`; otherwise the group of the leftmost match, as long as it can be |
| CellsProperties.OnlyAtHere | notebook/process_notebook.py:269 | a `%%(\S+)only` match from `p` is exactly `%%` followed by `only` that starts at least one character in and ends within the maximal `\S` run |
| Cells.WriteCell | notebook/process_notebook.py:210-231 | without `#%%colabonly` the cell's rewritten lines are written and returned, then a line break; with one, the lines before it are written and nothing is returned |
| Cells.CollectUntil | notebook/process_notebook.py:220-229 | the loop stops iff some line meets the stop test, and collects the output of exactly the lines before it |
| CellsProperties.SubsetFailsOnEmptySource | notebook/process_notebook.py:266-269 | the selection raises iff some cell has an empty source list |
| CellsProperties.SubsetKeepsOrder | notebook/process_notebook.py:266-271 | the selected cells are a subsequence of the cells |
| CellsProperties.SubsetKeepsAccepted | notebook/process_notebook.py:266-271 | each cell is kept, as often as it occurs, iff its first line passes the test |
| Cells.SubsetBy | notebook/process_notebook.py:266-271 | definition, no contract: the cells whose first line passes, or IndexError on an empty source; `SubsetFailsOnEmptySource`, `SubsetKeepsOrder` and `SubsetKeepsAccepted` state it |
| Cells.CellSubset | notebook/process_notebook.py:266-271 | definition, no contract: `get_cell_subset` as `SubsetBy` with the exclusion and `only` test; `MarkedCellGoesToItsOutput` and `UnmarkedCellKeptUnlessExcluded` state the test |
| Cells.HtmlCells | notebook/process_notebook.py:274-276 | definition, no contract: `CellSubset` with `%%htmlexclude` and `html` |
| Cells.NotebookCells | notebook/process_notebook.py:279-281 | definition, no contract: `CellSubset` with `%%nbexclude` and `nb` |
| Cells.ColabCells | notebook/process_notebook.py:284-286 | definition, no contract: `CellSubset` with `%%colabexclude` and `colab` |
| CellsProperties.OnlyMarkerOf | notebook/process_notebook.py:269 | `%%<x>only` after text without `%` gives group `x`: both `%%nbonly` and `#%%colabonly` markers |
| CellsProperties.MarkedCellGoesToItsOutput | notebook/process_notebook.py:268-271 | a cell marked `%%<x>only`, after text without `%`, is kept iff it is not excluded and `x` is the output's type |
| CellsProperties.NoPercentPairFrom | notebook/process_notebook.py:269 | without `%%` there is no `only` marker |
| CellsProperties.UnmarkedCellKeptUnlessExcluded | notebook/process_notebook.py:268-271 | a first line without `%%` is kept iff it does not contain the exclusion string |
| CellsProperties.FilterKeepsOrder | notebook/process_notebook.py:204-206 | a filtering generator yields a subsequence |
| CellsProperties.FilterKeepsAccepted | notebook/process_notebook.py:204-206 | a line is yielded iff it is in the input and accepted, and an accepted line as often as the input has it |
| CellsProperties.FlatMapIdentity | notebook/process_notebook.py:193-202 | a per-line step that yields each line as it is yields the whole source |
| CellsProperties.CodeCellsLoseOnlyDirectives | notebook/process_notebook.py:203-206 | code cells keep their non-directive lines in order, each as often as the source has it, and no directive line |
| CellsProperties.TocMarkerExpands | notebook/process_notebook.py:194-197 | a line holding `[TOC]` is replaced in place by the table of contents |
| CellsProperties.PlainJupyterText | notebook/process_notebook.py:200-201 | a line without `{` and `@` is not rewritten for Jupyter |
| CellsProperties.PlainMarkdownLineKept | notebook/process_notebook.py:198-202 | a markdown line with no marker, directive, anchor or link reaches Jupyter as it is |
| CellsProperties.PlainMarkdownCellKept | notebook/process_notebook.py:192-202 | a markdown cell of such lines reaches Jupyter unchanged |
| Cells.PatchJupyter | notebook/process_notebook.py:192-206 | definition, no contract: markdown cells go line by line through `JupyterMarkdownLine`, other cells lose their directive lines; `CodeCellsLoseOnlyDirectives`, `TocMarkerExpands`, `MarkdownDirectiveDropped` and `PlainMarkdownCellKept` state it |
| Cells.JupyterMarkdownLine | notebook/process_notebook.py:194-202 | definition, no contract: the table of contents for a `[TOC]` line, nothing for a directive, else `JupyterText`; `PlainMarkdownLineKept` states the plain case |
| Cells.JupyterText | notebook/process_notebook.py:200-201 | definition, no contract: the anchor pass, then the `@file` pass; `HeadingAnchorForJupyter`, `FileLinkToIpynb` and `PlainJupyterText` state it |
| CellsProperties.MarkdownDirectiveDropped | notebook/process_notebook.py:198-202 | a directive line of a markdown cell yields nothing; the lines before and after it are patched as they would be alone |
| CellsProperties.FileLinkToIpynb | notebook/process_notebook.py:200-201 | in a markdown cell for Jupyter, `@file name` becomes `name.ipynb` and the rest of the line is kept |
| CellsProperties.HeadingAnchorRewritten | notebook/process_notebook.py:200 | ` {#id}` becomes `<a id="id"></a>`, the rest kept |
| CellsProperties.HeadingAnchorForJupyter | notebook/process_notebook.py:199-202 | a heading's ` {#id}` reaches Jupyter as an HTML anchor of the same name, the heading text kept |
| CellsProperties.NoFileLinkUnchanged | notebook/process_notebook.py:201 | text without `@` has no `@file` link to rewrite |
| CellsProperties.NoFenceUnchanged | notebook/process_notebook.py:227 | text without a backtick has no fence to rewrite |
| CellsProperties.PlainLineWritten | notebook/process_notebook.py:224-229 | a kept line without `@` and backtick is written as it is |
| CellsProperties.FenceRewritten | notebook/process_notebook.py:212-219 | the fence pass maps the language name and keeps the rest |
| CellsProperties.FenceLanguageRenamed | notebook/process_notebook.py:212-227 | a fenced block's `python` becomes `py` and `c++` becomes `cpp`; other names are kept |
| CellsProperties.FileLinkRewritten | notebook/process_notebook.py:189 | `@file name` is replaced by the replacement of `name`, the rest kept |
| CellsProperties.FileLinkToHtml | notebook/process_notebook.py:226-227 | `@file name` is written as `name.html` |
| CellsProperties.PlainCellWritten | notebook/process_notebook.py:220-229 | a cell of plain kept lines is written as it is |
| CellsProperties.DocLinesAreWrittenText | notebook/process_notebook.py:220-229 | the written lines are `DocText` of each kept line, in order: directives and `%matplotlib` lines are dropped |
| Cells.DocText | notebook/process_notebook.py:226-227 | definition, no contract: the `@file` pass, then the fence pass; `FileLinkToHtml`, `FenceRewritten` and `PlainLineWritten` state it |
| Cells.DocLine | notebook/process_notebook.py:224-229 | definition, no contract: `DocText` of a line that is neither a directive nor a `%matplotlib` magic, nothing otherwise |
| Cells.DocLines | notebook/process_notebook.py:220-229 | definition, no contract: the lines written for a cell without `#%%colabonly`; `DocLinesAreWrittenText` and `PlainCellWritten` state them |
| RefLinks.Resolve | notebook/process_notebook.py:155-160 | a resolved URL is non-empty; a miss raises the bad-reference error naming the reference |
| RefLinks.BacktickLink | notebook/process_notebook.py:147-153 | definition, no contract: `_replace_backtick_link`; `BacktickBecomesRef`, `TildeLinkShowsLastComponent` and `TildeWithoutScopeKeepsTilde` state it |
| RefLinks.Include | notebook/process_notebook.py:162-165 | definition, no contract: the file's contents, or the error naming a missing file; `IncludeInserted` and `MissingIncludeFails` state it |
| RefLinks.FixLinks | notebook/process_notebook.py:167-172 | definition, no contract: the include pass, then the backtick pass, then the `@ref` pass; `PlainTextUnchanged`, `OnlyRefPass`, `BacktickLinkResolved` and `UnresolvedRefFails` state it |
| RefLinks.RefLinkTable.constructor | notebook/process_notebook.py:71-73 | the dictionary starts empty |
| RefLinks.RefLinkTable.ParsePythonInventory | notebook/process_notebook.py:75-82 | every `py:` item is written in order, later writes overwriting |
| RefLinks.RefLinkTable.ParseDoxygenTagFile | notebook/process_notebook.py:84-101 | the dictionary is the old one updated by each compound's writes, in order |
| RefLinks.RefLinkTable.AddFileTags | notebook/process_notebook.py:103-119 | typedefs after a namespace, then `IMP/<name>` for a header, are written |
| RefLinks.RefLinkTable.AddPageTags | notebook/process_notebook.py:121-129 | the page, then each of its anchors, are written |
| RefLinks.RefLinkTable.AddMemberTags | notebook/process_notebook.py:131-145 | each function member's writes are applied, in order |
| RefLinksProperties.LastWriteWins | notebook/process_notebook.py:138-145 | a key is present iff it was present or written; its value is the last write, else the old value |
| RefLinksProperties.LastWriteAt | notebook/process_notebook.py:138-145 | the last write to a key decides its value |
| RefLinksProperties.LastWriteNone | notebook/process_notebook.py:138-145 | a key has no write iff no write names it |
| RefLinksProperties.RegisteredNameResolves | notebook/process_notebook.py:155-160 | a name last written with a non-empty URL resolves to it |
| RefLinksProperties.DottedNameResolvesScoped | notebook/process_notebook.py:155-160 | `p.q` without a URL of its own resolves to the URL of `p::q` |
| RefLinksProperties.UndottedNameMissing | notebook/process_notebook.py:155-160 | a name without a dot and without a URL raises the bad-reference error |
| RefLinksProperties.MemberWritesAreFunctions | notebook/process_notebook.py:136-145 | exactly `cls::meth` for every function member, and `base::meth` with the same URL when the anchor file is the base's |
| RefLinksProperties.MemberResolvesUnderBothClasses | notebook/process_notebook.py:136-160 | a function member that the base class owns resolves to the same URL under the derived class's name and under the base's |
| RefLinksProperties.FileWritesAreTypedefs | notebook/process_notebook.py:105-114 | exactly `ns::name` for every typedef after a non-empty namespace, `ns` the latest one |
| RefLinksProperties.ShortNameIsLastComponent | notebook/process_notebook.py:150 | the short name ends the text and holds no `.` and no `::` |
| RefLinksProperties.TildeLinkShowsLastComponent | notebook/process_notebook.py:149-151 | ``` ``~a.b::c`` ``` becomes `[c](@ref a.b::c)` |
| RefLinksProperties.TildeWithoutScopeKeepsTilde | notebook/process_notebook.py:149-151 | ``` ``~x`` ``` without `.` and `::` becomes `[~x](@ref x)` |
| RefLinksProperties.NothingToInclude | notebook/process_notebook.py:170 | text without `%` is not changed by the include pass |
| RefLinksProperties.NoBacktickLinks | notebook/process_notebook.py:171 | text without a backtick is not changed by the backtick pass |
| RefLinksProperties.NoRefLinks | notebook/process_notebook.py:172 | text without `@` is not changed by the `@ref` pass |
| RefLinksProperties.OnlyRefPass | notebook/process_notebook.py:170-172 | without `%` and backticks only the `@ref` pass acts |
| RefLinksProperties.PlainTextUnchanged | notebook/process_notebook.py:167-172 | text without `%`, backticks and `@` is returned unchanged |
| RefLinksProperties.IncludeInserted | notebook/process_notebook.py:162-170 | `%%include path` is replaced by the file's contents |
| RefLinksProperties.MissingIncludeFails | notebook/process_notebook.py:162-170 | including a missing file raises, naming the file |
| RefLinksProperties.BacktickBecomesRef | notebook/process_notebook.py:147-153 | ``` ``x`` ``` becomes `[x](@ref x)` |
| RefLinksProperties.RefReplaced | notebook/process_notebook.py:155-160 | `@ref name` is replaced by the URL it resolves to |
| RefLinksProperties.BadRefRaises | notebook/process_notebook.py:155-160 | an `@ref` to an unknown name raises, naming it |
| RefLinksProperties.BacktickLinkResolved | notebook/process_notebook.py:167-172 | a backtick link becomes an `@ref` link that the same call resolves: ``` ``x`` ``` gives `[x](url)` |
| RefLinksProperties.UnresolvedRefFails | notebook/process_notebook.py:167-172 | `fix_links` raises on the first unresolved `@ref`, naming it |
| ShowAll.DepSet | www/showall.py:28-29 | a name is a dependency iff it is the filtered form of a listed name |
| ShowAll.FilterRepoName | www/showall.py:14-22 | definition, no contract: `_filter_repo_name`; `SpecialRepoRenamed`, `BothAffixesRemoved`, `PrefixRemoved`, `SuffixRemoved` and `PlainNameKept` state it |
| ShowAll.NewTutorial | www/showall.py:26-29 | definition, no contract: `Tutorial.__init__`, its dependencies `DepSet` of `depends`; `NoDependsNoDeps` states the missing key |
| ShowAll.Less | www/showall.py:31-41 | definition, no contract: `Tutorial.__lt__`; `LessIrreflexive`, `LessAsymmetric`, `DependencyOrdered` and `LessNotTransitive` state it |
| ShowAll.Shown | www/showall.py:79-80 | definition, no contract: only `show_in_index: false` hides; `OnlyFalseHides` states it |
| ShowAll.Listed | www/showall.py:71-81 | definition, no contract: the tutorials `print_tutorial_list` collects, in order; `ListedAreShown` and `MissingKeyListed` state it |
| ShowAll.CollectTutorials | www/showall.py:71-81 | the loop collects the shown tutorials in the order found |
| ShowAllProperties.SpecialRepoRenamed | www/showall.py:16-17 | `imp_tutorial` becomes `rnapolii_stalk` |
| ShowAllProperties.BothAffixesRemoved | www/showall.py:18-21 | `imp_<n>_tutorial` becomes `<n>` |
| ShowAllProperties.PrefixRemoved | www/showall.py:18-22 | `imp_<n>` becomes `<n>` when `<n>` has no `_tutorial` suffix |
| ShowAllProperties.SuffixRemoved | www/showall.py:18-22 | `<n>_tutorial` becomes `<n>` when `<n>` has no `imp_` prefix |
| ShowAllProperties.PlainNameKept | www/showall.py:18-22 | a name with neither affix is kept |
| ShowAllProperties.NoDependsNoDeps | www/showall.py:28-29 | without `depends` a tutorial has no dependencies |
| ShowAllProperties.LessIrreflexive | www/showall.py:36-41 | `t < t` is false |
| ShowAllProperties.LessAsymmetric | www/showall.py:36-41 | `a < b` and `b < a` never both hold |
| ShowAllProperties.DependencyOrdered | www/showall.py:36-39 | a tutorial comes after what it depends on |
| ShowAllProperties.LessNotTransitive | www/showall.py:36-41 | three tutorials with acyclic dependencies form a cycle `a < b < c < a` |
| ShowAllProperties.ListedAreShown | www/showall.py:72-81 | a tutorial is listed iff it comes from a found entry that is shown |
| ShowAllProperties.MissingKeyListed | www/showall.py:79-81 | a tutorial without `show_in_index` is listed |
| ShowAllProperties.OnlyFalseHides | www/showall.py:79 | only `show_in_index: false` hides; `"false"` and `0` do not |
| MakeDocs.ReadYamlFile | doxygen/make-docs.py:37-41 | the loop returns the value of the first `title:` line, or `None` |
| MakeDocs.TitleValue | doxygen/make-docs.py:40-41 | the text after the first `:` of a `title:` line is what follows `title:` |
| MakeDocs.YamlTitle | doxygen/make-docs.py:37-41 | definition, no contract: `read_yaml_file` on the file's lines; `YamlTitleAt` and `YamlTitleNone` state it |
| MakeDocs.DoxySettings | doxygen/make-docs.py:52-68 | definition, no contract: the eight settings of the if/elif chain, in order; `DoxySettingsWellFormed` and `ProjectNameLine` state them |
| MakeDocs.GetTitle | doxygen/make-docs.py:28-35 | the support metadata first, then the tutorial's own, else an error naming both paths |
| MakeDocs.RewriteLine | doxygen/make-docs.py:51-69 | a line matching no key passes through; `RewriteFindsFirst` gives the setting of the first matching key as its replacement |
| MakeDocs.RewriteDoxyfile | doxygen/make-docs.py:50-69 | one output line per input line, each rewritten |
| MakeDocs.MakeDoxyfile | doxygen/make-docs.py:43-72 | no title, no Doxyfile and an error; otherwise the rewritten configuration, and an error iff doxygen's status is non-zero |
| MakeDocsProperties.YamlTitleAt | doxygen/make-docs.py:37-41 | the title is the stripped value of the first `title:` line |
| MakeDocsProperties.YamlTitleNone | doxygen/make-docs.py:37-41 | `None` iff no line starts with `title:` |
| MakeDocsProperties.OtherKeyNotPrefix | doxygen/make-docs.py:52-68 | a replacement line does not start with another one-word key |
| MakeDocsProperties.RewriteFindsFirst | doxygen/make-docs.py:51-68 | the chain takes the first key that starts the line |
| MakeDocsProperties.RewriteIdempotent | doxygen/make-docs.py:51-69 | with distinct one-word keys, rewriting twice equals rewriting once |
| MakeDocsProperties.DoxySettingsWellFormed | doxygen/make-docs.py:52-68 | the eight keys are distinct words without spaces |
| MakeDocsProperties.DoxyfileRewriteIdempotent | doxygen/make-docs.py:51-69 | the Doxyfile rewrite is idempotent |
| MakeDocsProperties.ProjectNameLine | doxygen/make-docs.py:54-55 | `PROJECT_NAME` gets the title in quotes, `None` when there is no title |

## Left out

- **Not modelled at all:**
  - Network access and caching: `get_cached_url`, the tag-file downloads and `get_tag_file`.
  - Subprocesses: doxygen and git.
  - `exec` of cells, matplotlib output and `CellOutputWriter`'s images.
  - JSON load and dump.
  - The HTML printing of `showall.py`.
- **Parsers.** The tag-file XML and the intersphinx inventory are given as records
  already parsed. A record with a missing element, which raises in the source, is not
  modelled.
- **patch_source.** Its `%intersphinx` lines fetch an inventory over the network, so
  the function is not modelled. The per-line `fix_links` it applies is `RefLinks.FixLinks`.
- **Sorting.** `print_tutorial_list` sorts with `sorted`. Because `__lt__` is not a
  strict weak order, the result depends on the sort's internals, so the order is not
  modelled; `LessNotTransitive` shows why.
- **The `build.json` read** in `print_tutorial_list` is not modelled: its value is unused.
- **Metadata values.**
  - A `depends:` key whose value is `null` raises `TypeError` in the source; the
    model treats it like a missing key.
  - A `depends:` key whose value is a string: the source iterates its characters,
    and the model has only lists of names.
  - A `metadata.yaml` that loads to `None`: `.get` raises in the source, and the
    model has no such file contents.
  - `show_in_index` values other than booleans, strings and integers are not modelled.
- **White space.** `\s`, `str.isspace` and `str.strip` are modelled on all ASCII
  white space: space, `\t`, `\n`, `\v`, `\f`, `\r` and `\x1c` to `\x1f`. Non-ASCII
  white space is left out.
- **Files.**
  - The file handle of `write_cell` is the returned sequence `written`, and the
    Doxyfile is the returned sequence of lines.
  - `os.path.exists` is key membership in a map.
  - An error while reading an existing file is not modelled.
- MemberResolvesUnderBothClasses: stated for a function member listed last under its
  class. For an earlier member, a later write to the same key could replace the URL;
  `LastWriteAt` and `MemberWritesAreFunctions` cover that case.
- **Laziness.** Generators are modelled as the lists they yield. `get_markdown` is
  the list of the entries at the time it runs.
