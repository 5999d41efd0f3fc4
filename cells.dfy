/**
 * Which notebook cells each output keeps, and how the lines of a cell are
 * rewritten for the doc markdown (`write_cell`) and for Jupyter (`patch_jupyter`).
 */
module Cells {
  import opened Base
  import opened Text
  import opened Patterns

  datatype CellType = Markdown | Code | Raw

  /** A notebook cell: its type and its source lines, each normally ending in a line break. */
  datatype Cell = Cell(cellType: CellType, source: seq<string>)

  // ---- sequences -------------------------------------------------------------------

  /** `a` is `b` with some elements left out, the rest in their order. */
  predicate IsSubsequence<T(==)>(a: seq<T>, b: seq<T>)
    decreases |b|
  {
    |a| == 0 || (|b| > 0 && ((a[0] == b[0] && IsSubsequence(a[1..], b[1..])) || IsSubsequence(a, b[1..])))
  }

  /** The lines that `keep` accepts, in order (a generator with an `if`). */
  function Filter(lines: seq<string>, keep: string -> bool): (r: seq<string>)
    ensures |r| <= |lines|
    ensures forall x :: multiset(r)[x] == if keep(x) then multiset(lines)[x] else 0
  {
    if |lines| == 0 then []
    else
      var init, last := lines[..|lines| - 1], lines[|lines| - 1];
      assert lines == init + [last];
      Filter(init, keep) + (if keep(last) then [last] else [])
  }

  /** Every line replaced by the lines `f` yields for it (a generator of generators). */
  function FlatMap(lines: seq<string>, f: string -> seq<string>): seq<string> {
    if |lines| == 0 then []
    else FlatMap(lines[..|lines| - 1], f) + f(lines[|lines| - 1])
  }

  lemma FlatMapStep(lines: seq<string>, i: nat, f: string -> seq<string>)
    requires i < |lines|
    ensures FlatMap(lines[..i + 1], f) == FlatMap(lines[..i], f) + f(lines[i])
  {
    assert lines[..i + 1][..i] == lines[..i];
  }

  /** The index of the first line that `p` accepts. */
  function FirstWhere(lines: seq<string>, p: string -> bool): (r: Option<nat>)
    ensures r.Some? ==> r.value < |lines| && p(lines[r.value]) && forall k :: 0 <= k < r.value ==> !p(lines[k])
    ensures r.None? ==> forall k :: 0 <= k < |lines| ==> !p(lines[k])
  {
    if |lines| == 0 then None
    else if p(lines[0]) then Some(0)
    else match FirstWhere(lines[1..], p)
      case None => None
      case Some(k) => Some(k + 1)
  }

  /** Scanning for the first line `p` accepts: the line at `i` either is it or comes before it. */
  lemma FirstWhereFrom(lines: seq<string>, p: string -> bool, i: nat)
    requires i < |lines|
    requires FirstWhere(lines, p).Some? ==> i <= FirstWhere(lines, p).value
    ensures p(lines[i]) ==> FirstWhere(lines, p) == Some(i)
    ensures !p(lines[i]) && FirstWhere(lines, p).Some? ==> i < FirstWhere(lines, p).value
  {
  }

  // ---- directives ------------------------------------------------------------------

  const DirectiveMarkers: seq<string> :=
    ["%%htmlexclude", "%%htmlonly", "%%nbexclude", "%%nbonly", "%%colabexclude", "%%colabonly"]

  predicate StartsWithAny(s: string, prefixes: seq<string>) {
    exists i :: 0 <= i < |prefixes| && prefixes[i] <= s
  }

  /** `re.match('#?%%(html|nb|colab)(exclude|only)', s)` */
  predicate IsDirective(s: string) {
    StartsWithAny(s, DirectiveMarkers) || (|s| > 0 && s[0] == '#' && StartsWithAny(s[1..], DirectiveMarkers))
  }

  // ---- get_cell_subset ---------------------------------------------------------------

  predicate OnlyStarts(line: string, k: nat) {
    k + 4 <= |line| && line[k..k + 4] == "only"
  }

  /** The largest `k` in `lo..hi - 4` at which "only" starts. */
  function LastOnly(line: string, lo: nat, hi: nat): (r: Option<nat>)
    requires hi <= |line|
    ensures r.Some? ==> lo <= r.value && r.value + 4 <= hi && OnlyStarts(line, r.value)
    ensures r.Some? ==> forall k :: r.value < k && k + 4 <= hi ==> !OnlyStarts(line, k)
    ensures r.None? ==> forall k :: lo <= k && k + 4 <= hi ==> !OnlyStarts(line, k)
    decreases hi
  {
    if hi < lo + 4 then None
    else if line[hi - 4..hi] == "only" then Some(hi - 4)
    else LastOnly(line, lo, hi - 1)
  }

  /**
   * `re.search('%%(\S+)only', line[i..])`: the leftmost `%%` from which the greedy
   * `\S+` can give back characters until "only" follows; the group is the longest such run.
   */
  function OnlyMarkerFrom(line: string, i: nat): (r: Option<string>)
    requires i <= |line|
    ensures r.Some? ==> |r.value| > 0 && NoSpace(r.value)
    decreases |line| - i
  {
    if i + 2 > |line| then None
    else
      var found := if line[i..i + 2] == "%%" then LastOnly(line, i + 3, RunEnd(line, i + 2, NonSpace)) else None;
      match found
      case Some(k) => Some(line[i + 2..k])
      case None => OnlyMarkerFrom(line, i + 1)
  }

  /** `%%(\S+)only` matches from `p`, its group ending at `k`. */
  predicate OnlyAt(line: string, p: nat, k: nat) {
    p + 3 <= k && k + 4 <= |line| && line[p..p + 2] == "%%" && NoSpace(line[p + 2..k]) && OnlyStarts(line, k)
  }

  /** No match starts in `i..p`, and none from `p` has a longer group than the one ending at `k`. */
  ghost predicate LeftmostLongest(line: string, i: nat, p: nat, k: nat) {
    (forall p': nat, k': nat :: i <= p' < p ==> !OnlyAt(line, p', k')) && (forall k': nat :: k < k' ==> !OnlyAt(line, p, k'))
  }

  function OnlyMarker(line: string): Option<string> {
    OnlyMarkerFrom(line, 0)
  }

  /** The cell test of `get_cell_subset`, applied to the first source line. */
  predicate Keeps(line: string, excludestr: string, onlytype: string) {
    !Contains(line, excludestr) && (OnlyMarker(line).None? || OnlyMarker(line).value == onlytype)
  }

  function KeepsFirstLine(excludestr: string, onlytype: string): string -> bool {
    line => Keeps(line, excludestr, onlytype)
  }

  /**
   * The cells whose first line `keep` accepts, in order; reading the first line of a
   * cell with no source lines raises IndexError.
   */
  function SubsetBy(cells: seq<Cell>, keep: string -> bool): Result<seq<Cell>> {
    if |cells| == 0 then Success([])
    else if |cells[0].source| == 0 then Failure(EmptyCellSource)
    else
      var rest :- SubsetBy(cells[1..], keep);
      Success(if keep(cells[0].source[0]) then [cells[0]] + rest else rest)
  }

  /** `list(get_cell_subset(cells, excludestr, onlytype))` */
  function CellSubset(cells: seq<Cell>, excludestr: string, onlytype: string): Result<seq<Cell>> {
    SubsetBy(cells, KeepsFirstLine(excludestr, onlytype))
  }

  function HtmlCells(cells: seq<Cell>): Result<seq<Cell>> {
    CellSubset(cells, "%%htmlexclude", "html")
  }

  function NotebookCells(cells: seq<Cell>): Result<seq<Cell>> {
    CellSubset(cells, "%%nbexclude", "nb")
  }

  function ColabCells(cells: seq<Cell>): Result<seq<Cell>> {
    CellSubset(cells, "%%colabexclude", "colab")
  }

  // ---- patch_jupyter -----------------------------------------------------------------

  const FileLink: Matcher := Keyword("@file")

  function AnchorTag(g: string): string {
    "<a id=\"" + g + "\"></a>"
  }

  function IpynbLink(g: string): string {
    g + ".ipynb"
  }

  function HtmlLink(g: string): string {
    g + ".html"
  }

  /** A markdown line for Jupyter: anchors become HTML anchors, `@file` links point at notebooks. */
  function JupyterText(c: string): string {
    Rewrite(FileLink, Rewrite(InlineAnchor, c, AnchorTag), IpynbLink)
  }

  /** One line of a markdown cell for Jupyter: the table of contents, nothing, or the rewritten line. */
  function JupyterMarkdownLine(c: string, toc: seq<string>): seq<string> {
    if Contains(c, "[TOC]") then toc
    else if IsDirective(c) then []
    else [JupyterText(c)]
  }

  function NotDirective(c: string): bool {
    !IsDirective(c)
  }

  /** `list(patch_jupyter(source, rl, toc, is_markdown))`, where `toc` is `toc.get_markdown()`. */
  function PatchJupyter(source: seq<string>, toc: seq<string>, isMarkdown: bool): seq<string> {
    if isMarkdown then FlatMap(source, c => JupyterMarkdownLine(c, toc))
    else Filter(source, NotDirective)
  }

  // ---- write_cell --------------------------------------------------------------------

  /** `lang_replace.get(lang, lang)` */
  function FenceLang(lang: string): string {
    if lang == "python" then "py" else if lang == "c++" then "cpp" else lang
  }

  function FenceReplace(g: string): string {
    "```" + FenceLang(g)
  }

  predicate IsColabOnly(s: string) {
    "#%%colabonly" <= s
  }

  predicate IsWritten(s: string) {
    !IsDirective(s) && !("%matplotlib" <= s)
  }

  /** The text `write_cell` writes for a line it keeps. */
  function DocText(s: string): string {
    Rewrite(Fence, Rewrite(FileLink, s, HtmlLink), FenceReplace)
  }

  function DocLine(s: string): seq<string> {
    if IsWritten(s) then [DocText(s)] else []
  }

  /** The contents `write_cell` writes for `source`, none of whose lines is colab-only. */
  function DocLines(source: seq<string>): seq<string> {
    FlatMap(source, DocLine)
  }

  /**
   * `write_cell(cell, fh)`: `written` is what goes to `fh`, in order, and `contents`
   * what the call returns. A `#%%colabonly` line stops the cell: the call returns
   * nothing, and the lines written before it stay written without the closing line break.
   */
  method WriteCell(source: seq<string>) returns (written: seq<string>, contents: seq<string>)
    ensures FirstWhere(source, IsColabOnly).None? ==> contents == DocLines(source) && written == contents + ["\n"]
    ensures FirstWhere(source, IsColabOnly).Some? ==>
      contents == [] && written == DocLines(source[..FirstWhere(source, IsColabOnly).value])
  {
    var stopped;
    written, stopped := CollectUntil(source, IsColabOnly, DocLine);
    if stopped {
      return written, [];
    }
    contents := written;
    written := written + ["\n"];
  }

  /**
   * The loop of `write_cell`: each line's output is written and collected in turn
   * until a line for which `stop` holds ends the cell early.
   */
  method CollectUntil(source: seq<string>, stop: string -> bool, line: string -> seq<string>)
    returns (collected: seq<string>, stopped: bool)
    ensures stopped == FirstWhere(source, stop).Some?
    ensures collected == FlatMap(if stopped then source[..FirstWhere(source, stop).value] else source, line)
  {
    ghost var at := FirstWhere(source, stop);
    collected := [];
    var i := 0;
    while i < |source|
      invariant 0 <= i <= |source|
      invariant at.Some? ==> i <= at.value
      invariant collected == FlatMap(source[..i], line)
    {
      var s := source[i];
      FirstWhereFrom(source, stop, i);
      if stop(s) {
        return collected, true;
      }
      FlatMapStep(source, i, line);
      collected := collected + line(s);
      i := i + 1;
    }
    assert source[..i] == source;
    stopped := false;
  }
}

/** What the cell selection and the two line rewrites of the notebook script promise. */
module CellsProperties {
  import opened Base
  import opened Text
  import opened Patterns
  import opened Cells

  // ---- get_cell_subset ---------------------------------------------------------------

  /** The selection fails exactly when some cell has no source lines. */
  lemma {:induction false} SubsetFailsOnEmptySource(cells: seq<Cell>, keep: string -> bool)
    ensures SubsetBy(cells, keep).Success? <==> forall i :: 0 <= i < |cells| ==> |cells[i].source| > 0
  {
    if |cells| > 0 && |cells[0].source| > 0 {
      SubsetFailsOnEmptySource(cells[1..], keep);
      forall i | 1 <= i < |cells| ensures cells[i] == cells[1..][i - 1] { }
    }
  }

  /** The selected cells keep their original order. */
  lemma {:induction false} SubsetKeepsOrder(cells: seq<Cell>, keep: string -> bool)
    requires SubsetBy(cells, keep).Success?
    ensures IsSubsequence(SubsetBy(cells, keep).value, cells)
  {
    if |cells| > 0 {
      var rest := SubsetBy(cells[1..], keep).value;
      SubsetKeepsOrder(cells[1..], keep);
      if keep(cells[0].source[0]) {
        assert ([cells[0]] + rest)[1..] == rest;
      }
    }
  }

  /**
   * The selected cells are the cells whose first line `keep` accepts, each as many
   * times as it occurs.
   */
  lemma {:induction false} SubsetKeepsAccepted(cells: seq<Cell>, keep: string -> bool)
    requires SubsetBy(cells, keep).Success?
    ensures forall c :: multiset(SubsetBy(cells, keep).value)[c] ==
                        (if |c.source| > 0 && keep(c.source[0]) then multiset(cells)[c] else 0)
  {
    if |cells| > 0 {
      SubsetKeepsAccepted(cells[1..], keep);
      assert cells == [cells[0]] + cells[1..];
    }
  }

  /**
   * The group of `%%<x>only` after text without `%` is `x`: this covers the
   * `%%nbonly` markers of markdown cells and the `#%%colabonly` marker of code cells.
   */
  lemma OnlyMarkerOf(h: string, x: string, rest: string)
    requires '%' !in h && |x| > 0 && NoSpace(x)
    requires |rest| == 0 || IsSpace(rest[0])
    ensures OnlyMarker(h + "%%" + x + "only" + rest) == Some(x)
  {
    var line := h + "%%" + x + "only" + rest;
    var i := |h|;
    MarkerParts(h, x, rest);
    MarkerAt(line, i, x);
    NoMarkerBefore(line, 0, i);
  }

  lemma MarkerParts(h: string, x: string, rest: string)
    ensures var line, i := h + "%%" + x + "only" + rest, |h|;
      && |line| == i + 6 + |x| + |rest| && line[..i] == h
      && line[i..i + 2] == "%%" && line[i + 2..i + 2 + |x|] == x && line[i + 2 + |x|..i + 6 + |x|] == "only"
      && line[i + 6 + |x|..] == rest
  {
    Parts(h, "%%", x, "only");
  }

  /** `%%`, a `\S` run `x`, then `only` and the end of the run: the marker is `x`. */
  lemma MarkerAt(line: string, i: nat, x: string)
    requires |x| > 0 && NoSpace(x) && i + 6 + |x| <= |line|
    requires line[i..i + 2] == "%%" && line[i + 2..i + 2 + |x|] == x && line[i + 2 + |x|..i + 6 + |x|] == "only"
    requires i + 6 + |x| == |line| || IsSpace(line[i + 6 + |x|])
    ensures OnlyMarkerFrom(line, i) == Some(x)
  {
    var e := i + 6 + |x|;
    forall k | i + 2 <= k < e ensures InClass(line[k], NonSpace) {
      if k < i + 2 + |x| {
        assert line[k] == line[i + 2..i + 2 + |x|][k - i - 2];
      } else {
        assert line[k] == line[i + 2 + |x|..e][k - i - 2 - |x|];
      }
    }
    RunEndIs(line, i + 2, NonSpace, e);
  }

  /** Text without `%` before `i` starts no marker: the search goes on from `i`. */
  lemma {:induction false} NoMarkerBefore(line: string, j: nat, i: nat)
    requires j <= i <= |line| && forall y :: j <= y < i ==> line[y] != '%'
    ensures OnlyMarkerFrom(line, j) == OnlyMarkerFrom(line, i)
    decreases i - j
  {
    if j < i {
      if j + 2 <= |line| {
        assert line[j..j + 2][0] == line[j];
      }
      NoMarkerBefore(line, j + 1, i);
    }
  }

  /** A cell marked `%%<x>only` goes exactly to the output whose type is `x`, unless excluded. */
  lemma MarkedCellGoesToItsOutput(h: string, x: string, rest: string, excludestr: string, onlytype: string)
    requires '%' !in h && |x| > 0 && NoSpace(x)
    requires |rest| == 0 || IsSpace(rest[0])
    ensures Keeps(h + "%%" + x + "only" + rest, excludestr, onlytype) <==>
      !Contains(h + "%%" + x + "only" + rest, excludestr) && x == onlytype
  {
    OnlyMarkerOf(h, x, rest);
  }

  lemma {:induction false} NoPercentPairFrom(line: string, i: nat)
    requires i <= |line|
    requires forall j :: i <= j < |line| - 1 ==> !(line[j] == '%' && line[j + 1] == '%')
    ensures OnlyMarkerFrom(line, i).None?
    decreases |line| - i
  {
    if i + 2 <= |line| {
      assert line[i..i + 2][0] == line[i] && line[i..i + 2][1] == line[i + 1];
      NoPercentPairFrom(line, i + 1);
    }
  }

  /**
   * `OnlyMarkerFrom` is `re.search('%%(\S+)only', line[i..])`: no group iff no match
   * starts at or after `i`, and otherwise the group of the leftmost match, taken as
   * long as it can be.
   */
  lemma {:induction false} OnlyMarkerFromIsSearch(line: string, i: nat)
    requires i <= |line|
    ensures OnlyMarkerFrom(line, i).None? <==> forall p: nat, k: nat :: i <= p ==> !OnlyAt(line, p, k)
    ensures OnlyMarkerFrom(line, i).Some? ==>
      exists p: nat, k: nat :: i <= p && OnlyAt(line, p, k) && LeftmostLongest(line, i, p, k)
                               && OnlyMarkerFrom(line, i).value == line[p + 2..k]
    decreases |line| - i
  {
    if i + 2 > |line| {
      forall p: nat, k: nat | i <= p ensures !OnlyAt(line, p, k) {
      }
    } else {
      var e := RunEnd(line, i + 2, NonSpace);
      var found := if line[i..i + 2] == "%%" then LastOnly(line, i + 3, e) else None;
      if found.Some? {
        var k := found.value;
        OnlyAtHere(line, i, k);
        forall k': nat | k < k' ensures !OnlyAt(line, i, k') {
          OnlyAtHere(line, i, k');
        }
        assert OnlyAt(line, i, k) && LeftmostLongest(line, i, i, k);
      } else {
        forall k: nat ensures !OnlyAt(line, i, k) {
          OnlyAtHere(line, i, k);
        }
        OnlyMarkerFromIsSearch(line, i + 1);
        if OnlyMarkerFrom(line, i + 1).Some? {
          var p: nat, k: nat :| i + 1 <= p && OnlyAt(line, p, k) && LeftmostLongest(line, i + 1, p, k)
                                && OnlyMarkerFrom(line, i + 1).value == line[p + 2..k];
          assert LeftmostLongest(line, i, p, k);
        }
      }
    }
  }

  /** A match from `p` is `%%`, then "only" starting at least one character in and within the `\S` run. */
  lemma OnlyAtHere(line: string, p: nat, k: nat)
    requires p + 2 <= |line|
    ensures OnlyAt(line, p, k) <==>
      line[p..p + 2] == "%%" && p + 3 <= k && k + 4 <= RunEnd(line, p + 2, NonSpace) && OnlyStarts(line, k)
  {
    var e := RunEnd(line, p + 2, NonSpace);
    if OnlyAt(line, p, k) {
      forall y | p + 2 <= y < k + 4 ensures InClass(line[y], NonSpace) {
        if y < k {
          assert line[y] == line[p + 2..k][y - p - 2];
        } else {
          assert line[y] == line[k..k + 4][y - k];
        }
      }
      RunEndCovers(line, p + 2, NonSpace, k + 4);
    }
    if p + 3 <= k && k + 4 <= e {
      var g := line[p + 2..k];
      assert forall y :: 0 <= y < |g| ==> g[y] == line[p + 2 + y];
    }
  }

  /** A first line without `%%` only goes by the exclusion test. */
  lemma UnmarkedCellKeptUnlessExcluded(line: string, excludestr: string, onlytype: string)
    requires forall j :: 0 <= j < |line| - 1 ==> !(line[j] == '%' && line[j + 1] == '%')
    ensures Keeps(line, excludestr, onlytype) <==> !Contains(line, excludestr)
  {
    NoPercentPairFrom(line, 0);
  }

  // ---- generators -------------------------------------------------------------------

  lemma {:induction false} FilterKeepsOrder(lines: seq<string>, keep: string -> bool)
    ensures IsSubsequence(Filter(lines, keep), lines)
  {
    if |lines| > 0 {
      var init := lines[..|lines| - 1];
      var x := lines[|lines| - 1];
      FilterKeepsOrder(init, keep);
      assert lines == init + [x];
      SubsequenceSnoc(Filter(init, keep), init, x);
      if !keep(x) {
        assert Filter(init, keep) + [] == Filter(init, keep);
      }
    }
  }

  /** A line is kept iff it is in the input and accepted, as often as the input has it. */
  lemma FilterKeepsAccepted(lines: seq<string>, keep: string -> bool)
    ensures forall x :: x in Filter(lines, keep) <==> x in lines && keep(x)
    ensures forall x :: keep(x) ==> multiset(Filter(lines, keep))[x] == multiset(lines)[x]
  {
    var r := Filter(lines, keep);
    forall x ensures x in r <==> x in lines && keep(x) {
      assert x in r <==> multiset(r)[x] > 0;
      assert x in lines <==> multiset(lines)[x] > 0;
    }
  }

  lemma {:induction false} SubsequenceSnoc<T>(a: seq<T>, b: seq<T>, x: T)
    requires IsSubsequence(a, b)
    ensures IsSubsequence(a + [x], b + [x]) && IsSubsequence(a, b + [x])
    decreases |b|
  {
    if |b| == 0 {
      assert |a| == 0;
      assert ([x] + [])[1..] == [];
      assert a + [x] == [x] && b + [x] == [x];
    } else {
      assert (b + [x])[1..] == b[1..] + [x];
      if |a| > 0 && a[0] == b[0] && IsSubsequence(a[1..], b[1..]) {
        SubsequenceSnoc(a[1..], b[1..], x);
        assert (a + [x])[1..] == a[1..] + [x];
      } else if |a| > 0 {
        SubsequenceSnoc(a, b[1..], x);
      } else {
        SubsequenceSnoc(a, b[1..], x);
        assert (a + [x])[0] == x;
      }
    }
  }

  lemma {:induction false} FlatMapAppend(a: seq<string>, b: seq<string>, f: string -> seq<string>)
    ensures FlatMap(a + b, f) == FlatMap(a, f) + FlatMap(b, f)
    decreases |b|
  {
    if |b| > 0 {
      var init := b[..|b| - 1];
      FlatMapAppend(a, init, f);
      assert (a + b)[..|a + b| - 1] == a + init;
    } else {
      assert a + b == a;
    }
  }

  /** A per-line step that yields every line as it is yields the whole text as it is. */
  lemma {:induction false} FlatMapIdentity(lines: seq<string>, f: string -> seq<string>)
    requires forall i :: 0 <= i < |lines| ==> f(lines[i]) == [lines[i]]
    ensures FlatMap(lines, f) == lines
  {
    if |lines| > 0 {
      var init := lines[..|lines| - 1];
      FlatMapIdentity(init, f);
      assert init + [lines[|lines| - 1]] == lines;
    }
  }

  // ---- patch_jupyter -----------------------------------------------------------------

  /** Code and raw cells lose their directive lines and nothing else, in order. */
  lemma CodeCellsLoseOnlyDirectives(source: seq<string>, toc: seq<string>)
    ensures IsSubsequence(PatchJupyter(source, toc, false), source)
    ensures forall c :: multiset(PatchJupyter(source, toc, false))[c] == if IsDirective(c) then 0 else multiset(source)[c]
  {
    FilterKeepsOrder(source, NotDirective);
    assert forall c :: NotDirective(c) == !IsDirective(c);
  }

  /** A `[TOC]` line of a markdown cell is replaced by the table of contents, in place. */
  lemma TocMarkerExpands(before: seq<string>, c: string, after: seq<string>, toc: seq<string>)
    requires Contains(c, "[TOC]")
    ensures PatchJupyter(before + [c] + after, toc, true) ==
      PatchJupyter(before, toc, true) + toc + PatchJupyter(after, toc, true)
  {
    var f := (c: string) => JupyterMarkdownLine(c, toc);
    FlatMapAppend(before + [c], after, f);
    FlatMapAppend(before, [c], f);
    assert FlatMap([c], f) == FlatMap([], f) + f(c);
  }

  /** A directive line of a markdown cell is dropped; the lines around it are patched as they are. */
  lemma MarkdownDirectiveDropped(before: seq<string>, c: string, after: seq<string>, toc: seq<string>)
    requires IsDirective(c) && !Contains(c, "[TOC]")
    ensures PatchJupyter(before + [c] + after, toc, true) == PatchJupyter(before, toc, true) + PatchJupyter(after, toc, true)
  {
    var f := (c: string) => JupyterMarkdownLine(c, toc);
    assert f(c) == [];
    FlatMapDropsEmpty(before, c, after, f);
  }

  /** A line for which `f` yields nothing leaves the lines around it to be mapped as they are. */
  lemma FlatMapDropsEmpty(before: seq<string>, c: string, after: seq<string>, f: string -> seq<string>)
    requires f(c) == []
    ensures FlatMap(before + [c] + after, f) == FlatMap(before, f) + FlatMap(after, f)
  {
    assert [c][..0] == [];
    var none := FlatMap([c], f);
    assert none == FlatMap([], f) + f(c) == [];
    FlatMapAppend(before, [c], f);
    var lead := FlatMap(before + [c], f);
    assert lead == FlatMap(before, f) + none == FlatMap(before, f);
    FlatMapAppend(before + [c], after, f);
  }

  lemma NoAtNoFileLink(h: string, rest: string)
    requires '@' !in h
    ensures forall i :: 0 <= i < |h| ==> FileLink((h + rest)[i..]).None?
  {
    assert "@file"[0] == '@';
    NoAtNoKeyword("@file", h, rest);
  }

  /** Text with no `{` and no `@` has nothing for Jupyter to rewrite. */
  lemma PlainJupyterText(c: string)
    requires '{' !in c && '@' !in c
    ensures JupyterText(c) == c
  {
    NoBraceNoAnchor(c);
    RewriteUnchanged(InlineAnchor, c, AnchorTag);
    NoAtNoFileLink(c, []);
    assert c + [] == c;
    RewriteUnchanged(FileLink, c, IpynbLink);
  }

  /** A markdown line with no `{`, no `@`, no directive and no `[TOC]` reaches Jupyter as it is. */
  lemma PlainMarkdownLineKept(c: string, toc: seq<string>)
    requires '{' !in c && '@' !in c
    requires !IsDirective(c) && !Contains(c, "[TOC]")
    ensures JupyterMarkdownLine(c, toc) == [c]
  {
    PlainJupyterText(c);
  }

  /** A markdown cell made of such lines reaches Jupyter unchanged. */
  lemma PlainMarkdownCellKept(source: seq<string>, toc: seq<string>)
    requires forall i :: 0 <= i < |source| ==> '{' !in source[i] && '@' !in source[i]
    requires forall i :: 0 <= i < |source| ==> !IsDirective(source[i]) && !Contains(source[i], "[TOC]")
    ensures PatchJupyter(source, toc, true) == source
  {
    var f := (c: string) => JupyterMarkdownLine(c, toc);
    forall i | 0 <= i < |source| ensures f(source[i]) == [source[i]] {
      PlainMarkdownLineKept(source[i], toc);
    }
    FlatMapIdentity(source, f);
  }

  /** The anchor pass of `patch_jupyter` on a heading line ending in ` {#id}`. */
  lemma HeadingAnchorRewritten(h: string, id: string, t: string)
    requires '{' !in h && (|h| == 0 || !IsSpace(h[|h| - 1]))
    requires |id| > 0 && NoSpace(id) && '}' !in id
    requires '{' !in t
    ensures Rewrite(InlineAnchor, h + (" {#" + id + "}") + t, AnchorTag) == h + AnchorTag(id) + t
  {
    var mid := " {#" + id + "}";
    NoAnchorInside(h, mid + t);
    assert h + (mid + t) == h + mid + t;
    AnchorMatch(id, t);
    NoBraceNoAnchor(t);
    RewriteOne(InlineAnchor, h, mid, t, id, AnchorTag);
  }

  /**
   * A heading anchor ` {#id}`, which Jupyter does not understand, becomes an HTML
   * anchor with the same name; the heading text `h` is kept.
   */
  lemma HeadingAnchorForJupyter(h: string, id: string, t: string)
    requires '{' !in h && '@' !in h && (|h| == 0 || !IsSpace(h[|h| - 1]))
    requires |id| > 0 && NoSpace(id) && '}' !in id && '@' !in id
    requires '{' !in t && '@' !in t
    ensures JupyterText(h + (" {#" + id + "}") + t) == h + ("<a id=\"" + id + "\"></a>") + t
  {
    HeadingAnchorRewritten(h, id, t);
    AnchorTagHasNoAt(id);
    NoFileLinkUnchanged(h + AnchorTag(id) + t, IpynbLink);
  }

  lemma AnchorTagHasNoAt(id: string)
    requires '@' !in id
    ensures '@' !in AnchorTag(id)
  {
    assert AnchorTag(id) == "<a id=\"" + id + "\"></a>";
  }

  /** Text with no `@` holds no `@file` link. */
  lemma NoFileLinkUnchanged(s: string, f: string -> string)
    requires '@' !in s
    ensures Rewrite(FileLink, s, f) == s
  {
    NoAtNoFileLink(s, []);
    assert s + [] == s;
    RewriteUnchanged(FileLink, s, f);
  }

  /** Text with no backtick holds no fence. */
  lemma NoFenceUnchanged(s: string, f: string -> string)
    requires '`' !in s
    ensures Rewrite(Fence, s, f) == s
  {
    NoBacktickNoFence(s, []);
    assert s + [] == s;
    RewriteUnchanged(Fence, s, f);
  }

  // ---- write_cell --------------------------------------------------------------------

  /** A written line with no `@` and no backtick is written as it is. */
  lemma PlainLineWritten(s: string)
    requires '@' !in s && '`' !in s
    ensures DocText(s) == s
  {
    NoFileLinkUnchanged(s, HtmlLink);
    NoFenceUnchanged(s, FenceReplace);
  }

  /** The fence pass on a line opening a fenced block. */
  lemma FenceRewritten(lang: string, t: string)
    requires |lang| > 0 && NoSpace(lang)
    requires |t| == 0 || IsSpace(t[0])
    requires '`' !in t
    ensures Rewrite(Fence, "```" + lang + t, FenceReplace) == "```" + FenceLang(lang) + t
  {
    var mid := "```" + lang;
    FenceMatch(lang, t);
    NoBacktickNoFence(t, []);
    assert t + [] == t;
    RewriteFirst(Fence, mid, t, lang, FenceReplace);
  }

  /** A fenced block's language name becomes the file extension Doxygen expects. */
  lemma FenceLanguageRenamed(lang: string, t: string)
    requires |lang| > 0 && NoSpace(lang) && '@' !in lang
    requires |t| == 0 || IsSpace(t[0])
    requires '@' !in t && '`' !in t
    ensures DocText("```" + lang + t) == "```" + FenceLang(lang) + t
  {
    var s := "```" + lang + t;
    assert '@' !in s;
    NoFileLinkUnchanged(s, HtmlLink);
    FenceRewritten(lang, t);
  }

  /** The `@file` pass on a line holding one link. */
  lemma FileLinkRewritten(h: string, name: string, t: string, f: string -> string)
    requires '@' !in h
    requires |name| > 0 && NoSpace(name) && ')' !in name
    requires |t| == 0 || IsSpace(t[0]) || t[0] == ')'
    requires '@' !in t
    ensures Rewrite(FileLink, h + ("@file" + " " + name) + t, f) == h + f(name) + t
  {
    var mid := "@file" + " " + name;
    NoAtNoFileLink(h, mid + t);
    assert h + (mid + t) == h + mid + t;
    KeywordMatch("@file", name, t);
    NoAtNoFileLink(t, []);
    assert t + [] == t;
    RewriteOne(FileLink, h, mid, t, name, f);
  }

  /** `@file name` becomes a link to the HTML page `name.html`. */
  lemma FileLinkToHtml(h: string, name: string, t: string)
    requires '@' !in h && '`' !in h
    requires |name| > 0 && NoSpace(name) && ')' !in name && '`' !in name
    requires |t| == 0 || IsSpace(t[0]) || t[0] == ')'
    requires '@' !in t && '`' !in t
    ensures DocText(h + ("@file" + " " + name) + t) == h + (name + ".html") + t
  {
    FileLinkRewritten(h, name, t, HtmlLink);
    HtmlLinkNoBacktick(h, name, t);
    DocTextOf(h + ("@file" + " " + name) + t, h + HtmlLink(name) + t);
  }

  /** In a markdown cell for Jupyter, `@file name` becomes a link to the notebook `name.ipynb`. */
  lemma FileLinkToIpynb(h: string, name: string, t: string)
    requires '@' !in h && '{' !in h
    requires |name| > 0 && NoSpace(name) && ')' !in name && '{' !in name
    requires |t| == 0 || IsSpace(t[0]) || t[0] == ')'
    requires '@' !in t && '{' !in t
    ensures JupyterText(h + ("@file" + " " + name) + t) == h + (name + ".ipynb") + t
  {
    var s := h + ("@file" + " " + name) + t;
    FileLinkHasNoBrace(h, name, t);
    NoBraceNoAnchor(s);
    RewriteUnchanged(InlineAnchor, s, AnchorTag);
    FileLinkRewritten(h, name, t, IpynbLink);
  }

  lemma FileLinkHasNoBrace(h: string, name: string, t: string)
    requires '{' !in h && '{' !in name && '{' !in t
    ensures '{' !in h + ("@file" + " " + name) + t
  {
    assert '{' !in "@file" + " ";
    assert "@file" + " " + name == ("@file" + " ") + name;
  }

  lemma HtmlLinkNoBacktick(h: string, name: string, t: string)
    requires '`' !in h && '`' !in name && '`' !in t
    ensures '`' !in h + HtmlLink(name) + t
  {
    assert '`' !in ".html";
  }

  /** A line whose `@file` pass leaves no backtick is written as that pass gives it. */
  lemma DocTextOf(s: string, out: string)
    requires Rewrite(FileLink, s, HtmlLink) == out && '`' !in out
    ensures DocText(s) == out
  {
    NoFenceUnchanged(out, FenceReplace);
  }

  /** A cell of plain lines, none of them a directive or a magic, is written as it is. */
  lemma PlainCellWritten(source: seq<string>)
    requires forall i :: 0 <= i < |source| ==> IsWritten(source[i]) && '@' !in source[i] && '`' !in source[i]
    ensures DocLines(source) == source
  {
    forall i | 0 <= i < |source| ensures DocLine(source[i]) == [source[i]] {
      PlainLineWritten(source[i]);
    }
    FlatMapIdentity(source, DocLine);
  }

  /**
   * What `write_cell` writes for a cell without a `#%%colabonly` line: each line it
   * keeps, in order, rewritten by `DocText`; directives and `%matplotlib` magics are dropped.
   */
  lemma {:induction false} DocLinesAreWrittenText(source: seq<string>)
    ensures MapsTo(DocLines(source), Filter(source, IsWritten), DocText)
  {
    if |source| > 0 {
      var init, last := source[..|source| - 1], source[|source| - 1];
      DocLinesAreWrittenText(init);
      var d, k := DocLines(init), Filter(init, IsWritten);
      assert DocLines(source) == d + DocLine(last);
      if IsWritten(last) {
        assert Filter(source, IsWritten) == k + [last];
        assert DocLines(source) == d + [DocText(last)];
        MapsToSnoc(d, k, DocText, last);
      } else {
        assert Filter(source, IsWritten) == k + [];
        assert DocLines(source) == d + [];
      }
    }
  }

  /** `out` is `f` applied to each of `ins`, in order. */
  predicate MapsTo(out: seq<string>, ins: seq<string>, f: string -> string) {
    |out| == |ins| && forall i :: 0 <= i < |ins| ==> out[i] == f(ins[i])
  }

  lemma MapsToSnoc(out: seq<string>, ins: seq<string>, f: string -> string, x: string)
    requires MapsTo(out, ins, f)
    ensures MapsTo(out + [f(x)], ins + [x], f)
  {
  }
}
