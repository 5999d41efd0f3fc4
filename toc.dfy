/**
 * The table-of-contents builder of the notebook converter: it gives every
 * markdown heading an anchor, collects (level, title, anchor) entries while
 * enforcing the nesting rule, and renders them as an indented markdown list.
 */
module Toc {
  import opened Base
  import opened Text
  import opened Patterns

  /** One `(level, title, anchor)` entry. */
  datatype Entry = Entry(level: nat, title: string, anchor: string)

  predicate Hashes(t: string) {
    forall x :: 0 <= x < |t| ==> t[x] == '#'
  }

  /** Where `(#+)\s+` ends: the number of hashes and the index where the title starts. */
  function HeadingStart(s: string): (r: Option<(nat, nat)>)
    ensures r.Some? ==> 0 < r.value.0 < r.value.1 <= |s|
  {
    var h := RunEnd(s, 0, Exactly('#'));
    if 0 < h < |s| && IsSpace(s[h]) then Some((h, RunEnd(s, h, Space))) else None
  }

  /** The lazy title `.*?` of `anchor_re`, followed by `\s*\{#([^\s}]+)\}`. */
  function FindAnchor(rest: string, k: nat): (r: Option<(nat, Match)>)
    requires k <= |rest|
    ensures r.Some? ==> k <= r.value.0 <= |rest|
    decreases |rest| - k
  {
    match MatchInlineAnchor(rest[k..])
    case Some(m) => Some((k, m))
    case None => if k < |rest| && rest[k] != '\n' then FindAnchor(rest, k + 1) else None
  }

  /** `anchor_re.match(s)` with `anchor_re = (#+)\s+(.*?)\s*\{#([^\s}]+)\}` */
  function MatchAnchored(s: string): Option<Entry>
  {
    match HeadingStart(s)
    case None => None
    case Some((h, j)) =>
      match FindAnchor(s[j..], 0)
      case None => None
      case Some((k, m)) => Some(Entry(h, s[j..j + k], m.group))
  }

  /**
   * `noanchor_re.match(s)` with `noanchor_re = (#+)\s+(.*?)\s*$`: the level and the
   * title, which is the rest of the line without trailing whitespace; `.` does not
   * match a line break, so a break inside the title means no match.
   */
  function MatchUnanchored(s: string): Option<(nat, string)>
  {
    match HeadingStart(s)
    case None => None
    case Some((h, j)) =>
      var t := RStrip(s[j..]);
      if '\n' in t then None else Some((h, t))
  }

  /** A heading line that `add_missing_anchors` rewrites. */
  predicate NeedsAnchor(s: string) {
    MatchAnchored(s).None? && MatchUnanchored(s).Some?
  }

  /** `"autotoc%dv%d" % (filenum, n)` */
  function AutoAnchor(filenum: nat, n: nat): string {
    "autotoc" + NatToString(filenum) + "v" + NatToString(n)
  }

  /** `'%s %s {#%s}' % (hashes, title, anchor)`; note that no line break follows. */
  function AnchoredHeading(level: nat, title: string, anchor: string): string {
    Repeat('#', level) + " " + title + " {#" + anchor + "}"
  }

  /** One line of `add_missing_anchors`, where `n` is the counter after the increment. */
  function AnchorLine(s: string, filenum: nat, n: nat): string {
    if NeedsAnchor(s) then
      AnchoredHeading(MatchUnanchored(s).value.0, MatchUnanchored(s).value.1, AutoAnchor(filenum, n))
    else s
  }

  /** How many of `lines` the predicate `needs` selects. */
  function CountWhere(lines: seq<string>, needs: string -> bool): nat {
    if |lines| == 0 then 0
    else CountWhere(lines[..|lines| - 1], needs) + (if needs(lines[|lines| - 1]) then 1 else 0)
  }

  /**
   * Every line `s` becomes `line(s, n)`, where `n` is one more than `count` plus the
   * number of selected lines before it: the counter after a selected line's increment.
   */
  function Numbered(lines: seq<string>, count: nat, needs: string -> bool, line: (string, nat) -> string): (r: seq<string>)
    ensures |r| == |lines|
  {
    if |lines| == 0 then []
    else
      var done := lines[..|lines| - 1];
      Numbered(done, count, needs, line) + [line(lines[|lines| - 1], count + CountWhere(done, needs) + 1)]
  }

  function AnchorFor(filenum: nat): (string, nat) -> string {
    (s: string, n: nat) => AnchorLine(s, filenum, n)
  }

  /** Number of lines of `source` that get a generated anchor. */
  function CountNeeding(source: seq<string>): nat {
    CountWhere(source, NeedsAnchor)
  }

  /** `add_missing_anchors(source)` with the counter at `count` beforehand. */
  function AddAnchors(source: seq<string>, filenum: nat, count: nat): seq<string> {
    Numbered(source, count, NeedsAnchor, AnchorFor(filenum))
  }

  /** `get_sections(source)`: the anchored headings, in order. */
  function Sections(source: seq<string>): seq<Entry> {
    if |source| == 0 then []
    else
      (match MatchAnchored(source[0]) case Some(e) => [e] case None => [])
        + Sections(source[1..])
  }

  /** The nesting rule: the first entry is level 1, and no entry skips a level. */
  predicate Follows(prev: seq<Entry>, e: Entry) {
    if |prev| == 0 then e.level == 1 else e.level <= prev[|prev| - 1].level + 1
  }

  predicate WellNested(entries: seq<Entry>) {
    && (|entries| > 0 ==> entries[0].level == 1)
    && forall i :: 0 < i < |entries| ==> entries[i].level <= entries[i - 1].level + 1
  }

  function NestingError(prev: seq<Entry>, e: Entry): Error {
    if |prev| > 0 then HeadingSkip(e.level, e.title, prev[|prev| - 1].level, prev[|prev| - 1].title)
    else TopNotLevelOne(e.title)
  }

  /** The loop of `parse_cell`: append headings until one breaks the nesting rule. */
  function Extend(entries: seq<Entry>, hs: seq<Entry>): (seq<Entry>, Option<Error>)
    decreases |hs|
  {
    if |hs| == 0 then (entries, None)
    else if !Follows(entries, hs[0]) then (entries, Some(NestingError(entries, hs[0])))
    else Extend(entries + [hs[0]], hs[1..])
  }

  /** `parse_cell(source)` on the entries so far: the new entries and the exception, if any. */
  function ParseCellResult(entries: seq<Entry>, source: seq<string>): (seq<Entry>, Option<Error>) {
    if |source| > 0 && Contains(source[0], "%%nbexclude") then (entries, None)
    else Extend(entries, Sections(source))
  }

  /** One line of `get_markdown`. */
  function TocLine(e: Entry): string {
    Repeat(' ', e.level) + "- [" + e.title + "](#" + e.anchor + ")\n"
  }

  function EntryLines(entries: seq<Entry>): (r: seq<string>)
    ensures |r| == |entries|
    ensures forall i :: 0 <= i < |entries| ==> r[i] == TocLine(entries[i])
  {
    if |entries| == 0 then [] else EntryLines(entries[..|entries| - 1]) + [TocLine(entries[|entries| - 1])]
  }

  /** `get_markdown()`: a title line, a blank line, then one line per entry in order. */
  function TocMarkdown(entries: seq<Entry>): (r: seq<string>)
    ensures |r| == |entries| + 2
    ensures r[0] == "**Table of contents**\n" && r[1] == "\n"
    ensures forall i :: 0 <= i < |entries| ==> r[i + 2] == TocLine(entries[i])
  {
    ["**Table of contents**\n", "\n"] + EntryLines(entries)
  }

  class TableOfContents {
    /** `_auto_toc`: how many anchors this object has generated. */
    var autoToc: nat
    const filenum: nat
    var entries: seq<Entry>

    ghost predicate Valid()
      reads this
    {
      WellNested(entries)
    }

    constructor (filenum: nat)
      ensures Valid()
      ensures this.filenum == filenum && autoToc == 0 && entries == []
    {
      this.filenum := filenum;
      autoToc := 0;
      entries := [];
    }

    /** `add_missing_anchors`: give every heading without `{#anchor}` a generated one. */
    method AddMissingAnchors(source: seq<string>) returns (out: seq<string>)
      modifies this
      ensures out == AddAnchors(source, filenum, old(autoToc))
      ensures autoToc == old(autoToc) + CountNeeding(source)
      ensures entries == old(entries)
    {
      out := [];
      var i := 0;
      while i < |source|
        invariant 0 <= i <= |source|
        invariant entries == old(entries)
        invariant out == AddAnchors(source[..i], filenum, old(autoToc))
        invariant autoToc == old(autoToc) + CountNeeding(source[..i])
      {
        ghost var before := autoToc;
        var s := AnchorOne(source[i]);
        NumberedStep(source, i, old(autoToc), NeedsAnchor, AnchorFor(filenum), before, s);
        out := out + [s];
        i := i + 1;
      }
      assert source[..i] == source;
    }

    /** One line of `add_missing_anchors`' loop. */
    method AnchorOne(line: string) returns (s: string)
      modifies this
      ensures s == AnchorLine(line, filenum, old(autoToc) + 1)
      ensures autoToc == old(autoToc) + if NeedsAnchor(line) then 1 else 0
      ensures entries == old(entries)
    {
      s := line;
      AnchorLineCases(line, filenum, autoToc + 1);
      if MatchAnchored(line).None? {
        var m := MatchUnanchored(line);
        if m.Some? {
          autoToc := autoToc + 1;
          s := AnchoredHeading(m.value.0, m.value.1, AutoAnchor(filenum, autoToc));
        }
      }
    }

    /** `parse_cell`: record the cell's anchored headings, raising on a nesting violation. */
    method ParseCell(source: seq<string>) returns (err: Option<Error>)
      requires Valid()
      modifies this
      ensures Valid()
      ensures (entries, err) == ParseCellResult(old(entries), source)
      ensures autoToc == old(autoToc)
    {
      if |source| > 0 && Contains(source[0], "%%nbexclude") {
        return None;
      }
      var i := 0;
      while i < |source|
        invariant 0 <= i <= |source|
        invariant autoToc == old(autoToc)
        invariant Extend(entries, Sections(source[i..])) == Extend(old(entries), Sections(source))
        invariant Valid()
      {
        SectionsStep(source, i);
        var h := MatchAnchored(source[i]);
        if h.Some? {
          var e := h.value;
          ExtendCons(entries, e, Sections(source[i + 1..]));
          if |entries| > 0 && e.level > entries[|entries| - 1].level + 1 {
            return Some(HeadingSkip(e.level, e.title, entries[|entries| - 1].level, entries[|entries| - 1].title));
          } else if |entries| == 0 && e.level != 1 {
            return Some(TopNotLevelOne(e.title));
          }
          AppendKeepsNesting(entries, e);
          ExtendCons(entries, e, Sections(source[i + 1..]));
          entries := entries + [e];
        }
        i := i + 1;
      }
      assert source[i..] == [];
      err := None;
    }

    /** `get_markdown()` on the current entries. */
    function Markdown(): seq<string>
      reads this
    {
      TocMarkdown(entries)
    }
  }

  /** One step of `Numbered`: the next line is numbered from the count so far. */
  lemma NumberedStep(lines: seq<string>, i: nat, count: nat, needs: string -> bool, line: (string, nat) -> string, c: nat, s: string)
    requires i < |lines|
    requires c == count + CountWhere(lines[..i], needs)
    requires s == line(lines[i], c + 1)
    ensures Numbered(lines[..i + 1], count, needs, line) == Numbered(lines[..i], count, needs, line) + [s]
    ensures count + CountWhere(lines[..i + 1], needs) == c + (if needs(lines[i]) then 1 else 0)
  {
    assert lines[..i + 1][..i] == lines[..i];
  }

  lemma AnchorLineCases(s: string, filenum: nat, n: nat)
    ensures MatchAnchored(s).Some? ==> !NeedsAnchor(s) && AnchorLine(s, filenum, n) == s
    ensures MatchAnchored(s).None? && MatchUnanchored(s).None? ==> !NeedsAnchor(s) && AnchorLine(s, filenum, n) == s
    ensures MatchAnchored(s).None? && MatchUnanchored(s).Some? ==>
      NeedsAnchor(s) && AnchorLine(s, filenum, n)
        == AnchoredHeading(MatchUnanchored(s).value.0, MatchUnanchored(s).value.1, AutoAnchor(filenum, n))
  {
  }

  lemma SectionsStep(source: seq<string>, i: nat)
    requires i < |source|
    ensures MatchAnchored(source[i]).None? ==> Sections(source[i..]) == Sections(source[i + 1..])
    ensures MatchAnchored(source[i]).Some? ==>
      Sections(source[i..]) == [MatchAnchored(source[i]).value] + Sections(source[i + 1..])
  {
    assert source[i..][1..] == source[i + 1..];
    assert [] + Sections(source[i + 1..]) == Sections(source[i + 1..]);
  }

  lemma ExtendCons(entries: seq<Entry>, e: Entry, rest: seq<Entry>)
    ensures Extend(entries, [e] + rest)
      == if Follows(entries, e) then Extend(entries + [e], rest) else (entries, Some(NestingError(entries, e)))
  {
    assert ([e] + rest)[1..] == rest;
  }

  /** `FindAnchor` is the lazy search for the inline anchor pattern. */
  lemma {:induction false} FindAnchorIsLazyFind(rest: string, k: nat)
    requires k <= |rest|
    ensures FindAnchor(rest, k) == LazyFind(InlineAnchor, rest, k)
    decreases |rest| - k
  {
    if MatchInlineAnchor(rest[k..]).None? && k < |rest| && rest[k] != '\n' {
      FindAnchorIsLazyFind(rest, k + 1);
    }
  }

  /**
   * A heading start is a run of `#` and then a maximal run of white space; there is
   * none when no run of `#` at the start is followed by white space.
   */
  lemma HeadingStartShape(s: string)
    ensures HeadingStart(s).Some? ==>
      var (h, j) := HeadingStart(s).value;
      && Hashes(s[..h]) && AllSpace(s[h..j]) && (j == |s| || !IsSpace(s[j]))
    ensures HeadingStart(s).None? ==> forall h :: 0 < h < |s| && Hashes(s[..h]) ==> !IsSpace(s[h])
  {
    var h := RunEnd(s, 0, Exactly('#'));
    forall x | 0 < x < |s| && Hashes(s[..x]) && x != h ensures !IsSpace(s[x]) {
      forall y | 0 <= y < x ensures InClass(s[y], Exactly('#')) {
        assert s[y] == s[..x][y];
      }
      RunEndCovers(s, 0, Exactly('#'), x);
    }
  }

  /** Hashes, then white space up to `j`, then the end or a character that is not white space. */
  lemma HeadingStartAt(s: string, h: nat, j: nat)
    requires 0 < h < j <= |s| && Hashes(s[..h]) && AllSpace(s[h..j]) && (j == |s| || !IsSpace(s[j]))
    ensures HeadingStart(s) == Some((h, j))
  {
    forall x | 0 <= x < h ensures InClass(s[x], Exactly('#')) {
      assert s[x] == s[..h][x];
    }
    forall x | h <= x < j ensures InClass(s[x], Space) {
      assert s[x] == s[h..j][x - h];
    }
    assert IsSpace(s[h]);
    RunEndIs(s, 0, Exactly('#'), h);
    RunEndIs(s, h, Space, j);
  }

  /** An entry may be appended exactly when it follows the entries before it. */
  lemma AppendKeepsNesting(entries: seq<Entry>, e: Entry)
    requires WellNested(entries)
    ensures WellNested(entries + [e]) <==> Follows(entries, e)
  {
    var es := entries + [e];
    if |entries| > 0 {
      assert es[|entries|] == e && es[|entries| - 1] == entries[|entries| - 1];
      assert es[..|entries|] == entries;
    }
  }
}

/** What the table-of-contents builder promises, proved about the functions of `Toc`. */
module TocProperties {
  import opened Base
  import opened Text
  import opened Patterns
  import opened Toc

  /** The i-th numbered line is numbered after the selected lines before it. */
  lemma {:induction false} NumberedLine(lines: seq<string>, count: nat, needs: string -> bool, line: (string, nat) -> string, i: nat)
    requires i < |lines|
    ensures Numbered(lines, count, needs, line)[i] == line(lines[i], count + CountWhere(lines[..i], needs) + 1)
    decreases |lines|
  {
    var done := lines[..|lines| - 1];
    if i < |done| {
      NumberedLine(done, count, needs, line, i);
      assert done[..i] == lines[..i];
    }
  }

  /** A selected line adds one to the count, and the count never decreases along the lines. */
  lemma {:induction false} CountWhereGrows(lines: seq<string>, needs: string -> bool, i: nat, j: nat)
    requires i < j <= |lines|
    ensures CountWhere(lines[..j], needs) >= CountWhere(lines[..i], needs) + (if needs(lines[i]) then 1 else 0)
    decreases j
  {
    assert lines[..j][..j - 1] == lines[..j - 1];
    if j - 1 > i {
      CountWhereGrows(lines, needs, i, j - 1);
    } else {
      assert lines[..j][j - 1] == lines[i];
    }
  }

  /**
   * `add_missing_anchors` keeps the line count and rewrites exactly the anchorless
   * headings, the i-th line getting the counter value after the headings before it.
   */
  lemma AddAnchorsLine(source: seq<string>, filenum: nat, count: nat, i: nat)
    requires i < |source|
    ensures |AddAnchors(source, filenum, count)| == |source|
    ensures AddAnchors(source, filenum, count)[i] == AnchorLine(source[i], filenum, count + CountNeeding(source[..i]) + 1)
  {
    NumberedLine(source, count, NeedsAnchor, AnchorFor(filenum), i);
  }

  /** Two different counter values never give the same generated anchor. */
  lemma AutoAnchorInjective(filenum: nat, n: nat, m: nat)
    requires AutoAnchor(filenum, n) == AutoAnchor(filenum, m)
    ensures n == m
  {
    var p := "autotoc" + NatToString(filenum) + "v";
    assert AutoAnchor(filenum, n) == p + NatToString(n);
    assert AutoAnchor(filenum, m) == p + NatToString(m);
    assert NatToString(n) == AutoAnchor(filenum, n)[|p|..];
    assert NatToString(m) == AutoAnchor(filenum, m)[|p|..];
    NatToStringInjective(n, m);
  }

  /** The anchors generated for two different headings of one call differ. */
  lemma GeneratedAnchorsDistinct(source: seq<string>, filenum: nat, count: nat, i: nat, j: nat)
    requires i < j < |source| && NeedsAnchor(source[i]) && NeedsAnchor(source[j])
    ensures AutoAnchor(filenum, count + CountNeeding(source[..i]) + 1)
         != AutoAnchor(filenum, count + CountNeeding(source[..j]) + 1)
  {
    var a, b := count + CountNeeding(source[..i]) + 1, count + CountNeeding(source[..j]) + 1;
    CountWhereGrows(source, NeedsAnchor, i, j);
    assert a < b;
    if AutoAnchor(filenum, a) == AutoAnchor(filenum, b) {
      AutoAnchorInjective(filenum, a, b);
    }
  }

  /** A generated anchor is a valid `[^\s}]+` anchor name. */
  lemma AutoAnchorIsName(filenum: nat, n: nat)
    ensures |AutoAnchor(filenum, n)| > 0
    ensures forall x :: 0 <= x < |AutoAnchor(filenum, n)| ==> InClass(AutoAnchor(filenum, n)[x], NonSpaceExcept('}'))
  {
    var a, b := NatToString(filenum), NatToString(n);
    assert AutoAnchor(filenum, n) == "autotoc" + a + "v" + b;
    forall x | 0 <= x < |AutoAnchor(filenum, n)| ensures InClass(AutoAnchor(filenum, n)[x], NonSpaceExcept('}')) {
      if x < 7 { } else if x < 7 + |a| { assert IsDigit(a[x - 7]); }
      else if x == 7 + |a| { } else { assert IsDigit(b[x - 8 - |a|]); }
    }
  }

  /** The rewritten heading carries no line break: the break that ended the heading line is dropped. */
  lemma RewrittenHeadingHasNoBreak(s: string, filenum: nat, n: nat)
    requires NeedsAnchor(s)
    ensures '\n' !in AnchorLine(s, filenum, n)
  {
    var h, t := MatchUnanchored(s).value.0, MatchUnanchored(s).value.1;
    var a := AutoAnchor(filenum, n);
    AutoAnchorIsName(filenum, n);
    assert '\n' !in a by {
      forall x | 0 <= x < |a| ensures a[x] != '\n' {
        assert InClass(a[x], NonSpaceExcept('}'));
      }
    }
    assert AnchorLine(s, filenum, n) == Repeat('#', h) + " " + t + " {#" + a + "}";
  }

  /** An anchor name is a run of `[^\s}]`. */
  lemma AnchorNameClass(id: string)
    requires forall x :: 0 <= x < |id| ==> InClass(id[x], NonSpaceExcept('}'))
    ensures NoSpace(id) && '}' !in id
  {
    assert forall x :: 0 <= x < |id| ==> id[x] != '}';
  }

  /** Hashes `r`, then `v` whose leading white space ends at `j`: the title starts after it. */
  lemma HeadingStartOf(r: string, v: string, j: nat)
    requires |r| > 0 && Hashes(r) && 0 < j <= |v| && AllSpace(v[..j]) && (j == |v| || !IsSpace(v[j]))
    ensures HeadingStart(r + v) == Some((|r|, |r| + j))
  {
    var u := r + v;
    assert u[..|r|] == r;
    assert u[|r|..|r| + j] == v[..j];
    if j < |v| {
      assert u[|r| + j] == v[j];
    }
    HeadingStartAt(u, |r|, |r| + j);
  }

  /** `anchor_re` on `u`, from where the heading start and the lazy title end. */
  lemma MatchAnchoredOf(u: string, h: nat, j: nat, k: nat, m: Match)
    requires HeadingStart(u) == Some((h, j)) && FindAnchor(u[j..], 0) == Some((k, m))
    ensures MatchAnchored(u) == Some(Entry(h, u[j..j + k], m.group))
  {
    assert HeadingStart(u).value == (h, j);
  }

  lemma Regroup(a: string, b: string, c: string, d: string, e: string, f: string)
    ensures a + b + c + d + e + f == a + (b + (c + (d + e + f)))
  {
  }

  lemma RepeatHashes(h: nat)
    ensures |Repeat('#', h)| == h && Hashes(Repeat('#', h))
  {
  }

  /** `{#id}` alone is found at once. */
  lemma BareAnchorFound(id: string)
    requires |id| > 0 && NoSpace(id) && '}' !in id
    ensures FindAnchor("{#" + id + "}", 0) == Some((0, Match(id, 3 + |id|)))
  {
    var w := "{#" + id + "}";
    assert w[..2] == "{#" && w[2..2 + |id|] == id && w[2 + |id|] == '}';
    assert w[..0] == [];
    AnchorShapeMatch(w, 0, 2 + |id|);
    assert w[0..] == w;
  }

  /** Slices of `r + v` past `r` are slices of `v`. */
  lemma SliceAfter(r: string, v: string, j: nat, k: nat)
    requires j + k <= |v|
    ensures (r + v)[|r| + j..] == v[j..] && (r + v)[|r| + j..|r| + j + k] == v[j..j + k]
  {
  }

  /** What follows the hashes of a rewritten heading with an empty title: two spaces, then `{#id}`. */
  lemma UntitledRest(id: string)
    ensures var v := " " + ("" + (" {#" + id + "}"));
      |v| > 2 && AllSpace(v[..2]) && !IsSpace(v[2]) && v[2..] == "{#" + id + "}"
  {
    var v := " " + ("" + (" {#" + id + "}"));
    assert v[0] == ' ' && v[1] == ' ' && v[2] == '{';
    assert v[2..] == "{#" + id + "}";
  }

  /** A rewritten heading with an empty title: `\s+` takes both spaces and the anchor follows. */
  lemma UntitledHeadingParses(h: nat, id: string)
    requires h > 0 && |id| > 0 && NoSpace(id) && '}' !in id
    ensures MatchAnchored(AnchoredHeading(h, "", id)) == Some(Entry(h, "", id))
  {
    var u := AnchoredHeading(h, "", id);
    UntitledPieces(h, id);
    BareAnchorFound(id);
    assert u[h + 2..h + 2] == "";
    MatchAnchoredOf(u, h, h + 2, 0, Match(id, 3 + |id|));
  }

  /** Where the pieces of a rewritten heading with an empty title are. */
  lemma UntitledPieces(h: nat, id: string)
    requires h > 0
    ensures var u := AnchoredHeading(h, "", id);
      HeadingStart(u) == Some((h, h + 2)) && u[h + 2..] == "{#" + id + "}"
  {
    var r := Repeat('#', h);
    var v := " " + ("" + (" {#" + id + "}"));
    Regroup(r, " ", "", " {#", id, "}");
    UntitledRest(id);
    RepeatHashes(h);
    HeadingStartOf(r, v, 2);
    SliceAfter(r, v, 2, 0);
  }

  /** No anchor starts inside the title `t` followed by `tail`, when none does with `rest` after it. */
  lemma NoAnchorInTitle(t: string, tail: string, rest: string)
    requires |t| > 0 && !IsSpace(t[|t| - 1])
    requires |tail| > 0 && IsSpace(tail[0]) && (|rest| == 0 || IsSpace(rest[0]))
    requires forall x :: 0 <= x < |t| ==> MatchInlineAnchor(t[x..] + rest).None?
    ensures forall x :: 0 <= x < |t| ==> InlineAnchor((t + tail)[x..]).None?
  {
    forall x | 0 <= x < |t| ensures MatchInlineAnchor((t + tail)[x..]).None? {
      TitleAnchorFreeAt(t, tail, rest, x);
    }
  }

  /** The same for one start `x` inside the title. */
  lemma TitleAnchorFreeAt(t: string, tail: string, rest: string, x: nat)
    requires x < |t| && !IsSpace(t[|t| - 1])
    requires |tail| > 0 && IsSpace(tail[0]) && (|rest| == 0 || IsSpace(rest[0]))
    requires MatchInlineAnchor(t[x..] + rest).None?
    ensures MatchInlineAnchor((t + tail)[x..]).None?
  {
    var p := t[x..];
    assert (t + tail)[x..] == p + tail;
    assert p[|p| - 1] == t[|t| - 1];
    AnchorIgnoresSpacedTail(p, tail, rest);
  }

  /**
   * The title `t`, then an anchor `tail` led by white space: when no anchor starts
   * inside `t` with white space `rest` after it, the anchor is found after `t`.
   */
  lemma TitleThenAnchorFound(t: string, tail: string, rest: string, m: Match)
    requires |t| > 0 && !IsSpace(t[|t| - 1]) && '\n' !in t
    requires |tail| > 0 && IsSpace(tail[0]) && MatchInlineAnchor(tail) == Some(m)
    requires |rest| == 0 || IsSpace(rest[0])
    requires forall x :: 0 <= x < |t| ==> MatchInlineAnchor(t[x..] + rest).None?
    ensures FindAnchor(t + tail, 0) == Some((|t|, m))
  {
    var w := t + tail;
    NoAnchorInTitle(t, tail, rest);
    assert w[|t|..] == tail && w[0..|t|] == t;
    LazyFindAt(InlineAnchor, w, 0, |t|, m);
    FindAnchorIsLazyFind(w, 0);
  }

  /** What follows the hashes of a rewritten heading with a title: a space, the title, then ` {#id}`. */
  lemma TitledRest(t: string, id: string)
    requires |t| > 0
    ensures var v := " " + (t + (" {#" + id + "}"));
      AllSpace(v[..1]) && v[1] == t[0] && v[1..] == t + (" {#" + id + "}")
  {
  }

  /** A rewritten heading with a title parses back to its level, its title and its anchor. */
  lemma TitledHeadingParses(h: nat, t: string, id: string, rest: string)
    requires h > 0 && |t| > 0 && !IsSpace(t[0]) && !IsSpace(t[|t| - 1]) && '\n' !in t
    requires |id| > 0 && NoSpace(id) && '}' !in id
    requires |rest| == 0 || IsSpace(rest[0])
    requires forall x :: 0 <= x < |t| ==> MatchInlineAnchor(t[x..] + rest).None?
    ensures MatchAnchored(AnchoredHeading(h, t, id)) == Some(Entry(h, t, id))
  {
    var u := AnchoredHeading(h, t, id);
    var tail := " {#" + id + "}";
    TitledPieces(h, t, id);
    AnchorMatch(id, "");
    assert tail + "" == tail;
    TitleThenAnchorFound(t, tail, rest, Match(id, 4 + |id|));
    MatchAnchoredOf(u, h, h + 1, |t|, Match(id, 4 + |id|));
  }

  /** Where the pieces of a rewritten heading with a title are. */
  lemma TitledPieces(h: nat, t: string, id: string)
    requires h > 0 && |t| > 0 && !IsSpace(t[0])
    ensures var u := AnchoredHeading(h, t, id);
      && HeadingStart(u) == Some((h, h + 1))
      && u[h + 1..] == t + (" {#" + id + "}")
      && u[h + 1..h + 1 + |t|] == t
  {
    var r, tail := Repeat('#', h), " {#" + id + "}";
    var v := " " + (t + tail);
    Regroup(r, " ", t, " {#", id, "}");
    TitledRest(t, id);
    RepeatHashes(h);
    HeadingStartOf(r, v, 1);
    SliceAfter(r, v, 1, |t|);
    assert v[1..1 + |t|] == t;
  }

  /**
   * The line `add_missing_anchors` writes for a heading without an anchor parses back,
   * under `anchor_re`, to the heading's level and title and the generated anchor.
   */
  lemma AnchoredHeadingParsesBack(s: string, f: nat, n: nat)
    requires NeedsAnchor(s)
    ensures MatchAnchored(AnchorLine(s, f, n))
      == Some(Entry(MatchUnanchored(s).value.0, MatchUnanchored(s).value.1, AutoAnchor(f, n)))
  {
    var (h, j) := HeadingStart(s).value;
    var t := RStrip(s[j..]);
    var id := AutoAnchor(f, n);
    AutoAnchorIsName(f, n);
    AnchorNameClass(id);
    if |t| == 0 {
      UntitledHeadingParses(h, id);
    } else {
      TitleNotAnchored(s, h, j);
      TitledHeadingParses(h, t, id, s[j..][|t|..]);
    }
  }

  /** The title of a heading that `anchor_re` rejects holds no anchor, with what follows it in the line. */
  lemma TitleNotAnchored(s: string, h: nat, j: nat)
    requires NeedsAnchor(s) && HeadingStart(s) == Some((h, j)) && |RStrip(s[j..])| > 0
    ensures var t := RStrip(s[j..]);
      && !IsSpace(t[0]) && !IsSpace(t[|t| - 1]) && '\n' !in t
      && var rest := s[j..][|t|..];
      && (|rest| == 0 || IsSpace(rest[0]))
      && forall x :: 0 <= x < |t| ==> MatchInlineAnchor(t[x..] + rest).None?
  {
    var t := RStrip(s[j..]);
    HeadingStartShape(s);
    var line := s[j..];
    var rest := line[|t|..];
    assert line == t + rest;
    assert t[0] == line[0] == s[j];
    assert |rest| > 0 ==> rest[0] == line[|t|..][0];
    FindAnchorIsLazyFind(line, 0);
    LazyFindNone(InlineAnchor, line, 0);
    forall x | 0 <= x < |t| ensures MatchInlineAnchor(t[x..] + rest).None? {
      NoAnchorFromTitle(line, t, rest, x);
    }
  }

  /** A start inside the title of a line with no lazily found anchor starts no anchor. */
  lemma NoAnchorFromTitle(line: string, t: string, rest: string, x: nat)
    requires line == t + rest && x < |t| && '\n' !in t
    requires forall p :: 0 <= p <= |line| && '\n' !in line[0..p] ==> InlineAnchor(line[p..]).None?
    ensures MatchInlineAnchor(t[x..] + rest).None?
  {
    assert line[0..x] == t[..x];
    assert line[x..] == t[x..] + rest;
    assert InlineAnchor(line[x..]).None?;
  }

  // ---- the nesting rule ------------------------------------------------------------

  /**
   * `parse_cell`'s loop succeeds exactly when the new headings keep the entries
   * well nested; it then appends all of them, and otherwise it has appended those
   * before the first offending heading. Either way the entries stay well nested.
   */
  lemma {:induction false} ExtendChecksNesting(entries: seq<Entry>, hs: seq<Entry>)
    requires WellNested(entries)
    ensures WellNested(Extend(entries, hs).0)
    ensures Extend(entries, hs).1.None? <==> WellNested(entries + hs)
    ensures Extend(entries, hs).1.None? ==> Extend(entries, hs).0 == entries + hs
    decreases |hs|
  {
    if |hs| == 0 {
      assert entries + hs == entries;
    } else if !Follows(entries, hs[0]) {
      PrefixNesting(entries + hs, |entries| + 1);
      assert (entries + hs)[..|entries| + 1] == entries + [hs[0]];
      AppendKeepsNesting(entries, hs[0]);
    } else {
      AppendKeepsNesting(entries, hs[0]);
      ExtendChecksNesting(entries + [hs[0]], hs[1..]);
      assert entries + [hs[0]] + hs[1..] == entries + hs;
    }
  }

  /** When `parse_cell` raises, it has appended the headings before the first offending one. */
  lemma {:induction false} ExtendStopsAtFirstViolation(entries: seq<Entry>, hs: seq<Entry>)
    requires Extend(entries, hs).1.Some?
    ensures exists i ::
      && 0 <= i < |hs|
      && !Follows(entries + hs[..i], hs[i])
      && Extend(entries, hs) == (entries + hs[..i], Some(NestingError(entries + hs[..i], hs[i])))
    decreases |hs|
  {
    if !Follows(entries, hs[0]) {
      assert entries + hs[..0] == entries;
      assert Extend(entries, hs) == (entries + hs[..0], Some(NestingError(entries + hs[..0], hs[0])));
    } else {
      var e := hs[0];
      assert Extend(entries, hs) == Extend(entries + [e], hs[1..]);
      ExtendStopsAtFirstViolation(entries + [e], hs[1..]);
      var i :|
        && 0 <= i < |hs[1..]|
        && !Follows(entries + [e] + hs[1..][..i], hs[1..][i])
        && Extend(entries + [e], hs[1..]) == (entries + [e] + hs[1..][..i], Some(NestingError(entries + [e] + hs[1..][..i], hs[1..][i])));
      ConsPrefix(entries, hs, i);
    }
  }

  lemma ConsPrefix(entries: seq<Entry>, hs: seq<Entry>, i: nat)
    requires i < |hs| - 1
    ensures entries + [hs[0]] + hs[1..][..i] == entries + hs[..i + 1]
    ensures hs[1..][i] == hs[i + 1]
  {
  }

  /** Every prefix of well-nested entries is well nested. */
  lemma PrefixNesting(entries: seq<Entry>, n: nat)
    requires n <= |entries|
    ensures WellNested(entries) ==> WellNested(entries[..n])
  {
  }

  /** Example: level 1, 2, 1 is accepted; level 1 then 3 raises. */
  lemma NestingExamples()
    ensures Extend([], [Entry(1, "A", "a"), Entry(2, "B", "b"), Entry(1, "C", "c")]).1.None?
    ensures Extend([], [Entry(1, "A", "a"), Entry(3, "B", "b")]) == ([Entry(1, "A", "a")], Some(HeadingSkip(3, "B", 1, "A")))
  {
    assert [Entry(1, "A", "a"), Entry(2, "B", "b"), Entry(1, "C", "c")][1..] == [Entry(2, "B", "b"), Entry(1, "C", "c")];
    assert [Entry(2, "B", "b"), Entry(1, "C", "c")][1..] == [Entry(1, "C", "c")];
    assert [Entry(1, "A", "a"), Entry(3, "B", "b")][1..] == [Entry(3, "B", "b")];
    assert [] + [Entry(1, "A", "a")] == [Entry(1, "A", "a")];
    assert Extend([], [Entry(1, "A", "a"), Entry(3, "B", "b")]) == Extend([Entry(1, "A", "a")], [Entry(3, "B", "b")]);
  }
}
