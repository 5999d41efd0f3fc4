/**
 * `RefLinks` of notebook/process_notebook.py: a dictionary from identifiers to
 * documentation URLs, filled from doxygen tag files and Python inventories, and
 * the rewriting of `%%include`, ``` ``name`` ``` and `@ref name` markup that uses it.
 *
 * Tag files and inventories come in already parsed, as the records below; reading
 * XML and fetching inventories is not part of this model.
 */
module RefLinks {
  import opened Base
  import opened Text
  import opened Patterns

  // ---- the dictionary and its writes ----

  /** One assignment `self.refs[key] = url`. */
  datatype Write = Write(key: string, url: string)

  /** The dictionary after the assignments `ws`, in order, starting from `refs`. */
  function ApplyWrites(refs: map<string, string>, ws: seq<Write>): map<string, string>
  {
    if |ws| == 0 then refs
    else ApplyWrites(refs, ws[..|ws| - 1])[ws[|ws| - 1].key := ws[|ws| - 1].url]
  }

  /** The URL of the last assignment to `key` among `ws`, if there is one. */
  function LastWrite(ws: seq<Write>, key: string): Option<string>
  {
    if |ws| == 0 then None
    else if ws[|ws| - 1].key == key then Some(ws[|ws| - 1].url)
    else LastWrite(ws[..|ws| - 1], key)
  }

  // ---- tag-file records ----

  /** A child element of a `<compound>` in a doxygen tag file, with the fields the scripts read. */
  datatype TagChild =
    | Member(kind: string, name: string, anchorfile: string, anchor: string)   // <member kind=...>
    | Namespace(text: string)                                                 // <namespace>
    | DocAnchor(file: string, text: string)                                   // <docanchor file=...>
    | OtherChild                                                              // any other element

  /** A top-level element of a doxygen tag file; `base` is the text of its first `<base>`, if any. */
  datatype Compound = Compound(kind: string, name: string, filename: string, base: Option<string>, children: seq<TagChild>)

  /** One domain of a Python inventory: its name (`py:class`, ...) and its (identifier, URL) pairs. */
  datatype Domain = Domain(name: string, items: seq<(string, string)>)

  /** The URL of a member: `urltop + anchorfile + '#' + anchor`. */
  function AnchorUrl(urltop: string, anchorfile: string, anchor: string): string {
    urltop + anchorfile + "#" + anchor
  }

  /**
   * Whether a member listed under a derived class really belongs to its base class:
   * the base is set and the member's anchor file ends with the base's file name.
   */
  predicate BaseOwns(clsbase: Option<string>, anchorfile: string) {
    clsbase.Some? && clsbase.value != "" && EndsWith(anchorfile, Replace(clsbase.value, "::", "_1_1") + ".html")
  }

  /** What `_add_member_tags` assigns for one child of the compound. */
  function MemberChildWrites(child: TagChild, clsname: string, clsbase: Option<string>, urltop: string): seq<Write> {
    if child.Member? && child.kind == "function" then
      var url := AnchorUrl(urltop, child.anchorfile, child.anchor);
      [Write(clsname + "::" + child.name, url)]
        + (if BaseOwns(clsbase, child.anchorfile) then [Write(clsbase.value + "::" + child.name, url)] else [])
    else []
  }

  /** What `_add_member_tags` assigns for the children `cs`, in order. */
  function MemberWrites(cs: seq<TagChild>, clsname: string, clsbase: Option<string>, urltop: string): seq<Write> {
    if |cs| == 0 then []
    else MemberWrites(cs[..|cs| - 1], clsname, clsbase, urltop) + MemberChildWrites(cs[|cs| - 1], clsname, clsbase, urltop)
  }

  /** What `_add_page_tags` assigns for one child: a doc anchor names a URL in its file. */
  function AnchorChildWrites(child: TagChild, urltop: string): seq<Write> {
    if child.DocAnchor? then [Write(child.text, urltop + child.file + ".html#" + child.text)] else []
  }

  function AnchorWrites(cs: seq<TagChild>, urltop: string): seq<Write> {
    if |cs| == 0 then []
    else AnchorWrites(cs[..|cs| - 1], urltop) + AnchorChildWrites(cs[|cs| - 1], urltop)
  }

  /** What `_add_page_tags` assigns: the page itself, then its doc anchors. */
  function PageWrites(page: Compound, urltop: string): seq<Write> {
    [Write(page.name, urltop + page.filename + ".html")] + AnchorWrites(page.children, urltop)
  }

  /** The namespace `_add_file_tags` holds after the children `cs`; "" stands for none yet. */
  function NamespaceAfter(cs: seq<TagChild>): string {
    if |cs| == 0 then ""
    else if cs[|cs| - 1].Namespace? then cs[|cs| - 1].text
    else NamespaceAfter(cs[..|cs| - 1])
  }

  /** What `_add_file_tags` assigns for one child, under namespace `ns`: typedefs only, and only inside a namespace. */
  function FileChildWrites(child: TagChild, ns: string, urltop: string): seq<Write> {
    if ns != "" && child.Member? && child.kind == "typedef" then
      [Write(ns + "::" + child.name, AnchorUrl(urltop, child.anchorfile, child.anchor))]
    else []
  }

  function FileMemberWrites(cs: seq<TagChild>, urltop: string): seq<Write> {
    if |cs| == 0 then []
    else FileMemberWrites(cs[..|cs| - 1], urltop) + FileChildWrites(cs[|cs| - 1], NamespaceAfter(cs), urltop)
  }

  /** What `_add_file_tags` assigns: the typedefs, then `IMP/<name>` for a header file. */
  function FileWrites(page: Compound, urltop: string): seq<Write> {
    FileMemberWrites(page.children, urltop)
      + (if EndsWith(page.name, ".h") then [Write("IMP/" + page.name, urltop + page.filename + ".html")] else [])
  }

  /** What `parse_doxygen_tag_file` assigns for one compound, by its kind. */
  function CompoundWrites(c: Compound, urltop: string): seq<Write> {
    if c.kind == "class" || c.kind == "namespace" then
      [Write(c.name, urltop + c.filename)] + MemberWrites(c.children, c.name, c.base, urltop)
    else if c.kind == "page" then PageWrites(c, urltop)
    else if c.kind == "file" then FileWrites(c, urltop)
    else []
  }

  function TagFileWrites(root: seq<Compound>, urltop: string): seq<Write> {
    if |root| == 0 then []
    else TagFileWrites(root[..|root| - 1], urltop) + CompoundWrites(root[|root| - 1], urltop)
  }

  /** What `parse_python_inventory_file` assigns for one domain: its items, if it is a `py:` domain. */
  function DomainWrites(d: Domain): seq<Write> {
    if "py:" <= d.name then ItemWrites(d.items) else []
  }

  function ItemWrites(items: seq<(string, string)>): seq<Write> {
    if |items| == 0 then []
    else ItemWrites(items[..|items| - 1]) + [Write(items[|items| - 1].0, items[|items| - 1].1)]
  }

  function InventoryWrites(inv: seq<Domain>): seq<Write> {
    if |inv| == 0 then []
    else InventoryWrites(inv[..|inv| - 1]) + DomainWrites(inv[|inv| - 1])
  }

  // ---- the replacements of fix_links ----

  /**
   * `_replace_ref_link`: the URL of the name as written, else of the name with every
   * `.` replaced by `::`; a missing or empty URL is a bad link.
   */
  function Resolve(refs: map<string, string>, ref: string): (r: Result<string>)
    ensures r.Success? ==> r.value != ""
    ensures r.Failure? ==> r.error == BadRef(ref)
  {
    if ref in refs && refs[ref] != "" then Success(refs[ref])
    else
      var scoped := Replace(ref, ".", "::");
      if scoped in refs && refs[scoped] != "" then Success(refs[scoped]) else Failure(BadRef(ref))
  }

  function Resolver(refs: map<string, string>): string -> Result<string> {
    ref => Resolve(refs, ref)
  }

  /** A markdown link whose target is an `@ref` to be resolved later. */
  function RefMarkdown(text: string, target: string): string {
    "[" + text + "](@ref " + target + ")"
  }

  /** The short name of a `~`-qualified name: what follows the last `.`, then the last `::`. */
  function ShortName(txt: string): string {
    LastPart(LastPart(txt, "."), "::")
  }

  /** `_replace_backtick_link` */
  function BacktickLink(txt: string): string {
    if "~" <= txt then RefMarkdown(ShortName(txt), txt[1..]) else RefMarkdown(txt, txt)
  }

  /** `_include_file`, over a file system given as a map from path to contents. */
  function Include(files: map<string, string>, path: string): Result<string> {
    if path in files then Success(files[path]) else Failure(MissingFile(path))
  }

  function Includer(files: map<string, string>): string -> Result<string> {
    path => Include(files, path)
  }

  const IncludeLink: Matcher := Keyword("%%include")
  const RefLink: Matcher := Keyword("@ref")

  /** `fix_links`: the includes first, then backtick links, then `@ref` links. */
  function FixLinks(refs: map<string, string>, files: map<string, string>, c: string): Result<string> {
    var included :- SubAll(IncludeLink, c, Includer(files));
    var ticked := Rewrite(DoubleBackticks, included, BacktickLink);
    SubAll(RefLink, ticked, Resolver(refs))
  }

  // ---- the object ----

  class RefLinkTable {
    /** Mapping from identifier to URL. */
    var refs: map<string, string>

    constructor()
      ensures refs == map[]
    {
      refs := map[];
    }

    /** `parse_python_inventory_file`, on the inventory's domains as already loaded. */
    method ParsePythonInventory(inv: seq<Domain>)
      modifies this
      ensures refs == ApplyWrites(old(refs), InventoryWrites(inv))
    {
      for i := 0 to |inv|
        invariant refs == ApplyWrites(old(refs), InventoryWrites(inv[..i]))
      {
        ghost var before := refs;
        if "py:" <= inv[i].name {
          var items := inv[i].items;
          for j := 0 to |items|
            invariant refs == ApplyWrites(before, ItemWrites(items[..j]))
          {
            ghost var inner := refs;
            refs := refs[items[j].0 := items[j].1];
            assert items[..j + 1][..j] == items[..j];
            ApplyWritesAppendOne(before, ItemWrites(items[..j]), Write(items[j].0, items[j].1));
          }
          assert items[..|items|] == items;
        }
        assert inv[..i + 1][..i] == inv[..i];
        ApplyWritesAppend(old(refs), InventoryWrites(inv[..i]), DomainWrites(inv[i]));
      }
      assert inv[..|inv|] == inv;
    }

    /** `parse_doxygen_tag_file`, on the tag file's compounds as already parsed. */
    method ParseDoxygenTagFile(root: seq<Compound>, urltop: string)
      modifies this
      ensures refs == ApplyWrites(old(refs), TagFileWrites(root, urltop))
    {
      for i := 0 to |root|
        invariant refs == ApplyWrites(old(refs), TagFileWrites(root[..i], urltop))
      {
        ghost var before := refs;
        var c := root[i];
        if c.kind == "class" || c.kind == "namespace" {
          var url := urltop + c.filename;
          refs := refs[c.name := url];
          ghost var named := refs;
          AddMemberTags(c.children, c.name, c.base, urltop);
          ApplyWritesAppend(before, [Write(c.name, url)], MemberWrites(c.children, c.name, c.base, urltop));
        } else if c.kind == "page" {
          AddPageTags(c, urltop);
        } else if c.kind == "file" {
          AddFileTags(c, urltop);
        }
        assert root[..i + 1][..i] == root[..i];
        ApplyWritesAppend(old(refs), TagFileWrites(root[..i], urltop), CompoundWrites(c, urltop));
      }
      assert root[..|root|] == root;
    }

    /** `_add_file_tags` */
    method AddFileTags(page: Compound, urltop: string)
      modifies this
      ensures refs == ApplyWrites(old(refs), FileWrites(page, urltop))
    {
      var cs := page.children;
      var namespace := "";
      for i := 0 to |cs|
        invariant namespace == NamespaceAfter(cs[..i])
        invariant refs == ApplyWrites(old(refs), FileMemberWrites(cs[..i], urltop))
      {
        assert cs[..i + 1][..i] == cs[..i];
        ghost var before := refs;
        var child := cs[i];
        if child.Namespace? {
          namespace := child.text;
        }
        if namespace != "" && child.Member? && child.kind == "typedef" {
          refs := refs[namespace + "::" + child.name := AnchorUrl(urltop, child.anchorfile, child.anchor)];
        }
        ApplyWritesAppend(old(refs), FileMemberWrites(cs[..i], urltop), FileChildWrites(child, namespace, urltop));
      }
      assert cs[..|cs|] == cs;
      ghost var members := refs;
      if EndsWith(page.name, ".h") {
        refs := refs["IMP/" + page.name := urltop + page.filename + ".html"];
      }
      ApplyWritesAppend(old(refs), FileMemberWrites(cs, urltop),
                        if EndsWith(page.name, ".h") then [Write("IMP/" + page.name, urltop + page.filename + ".html")] else []);
    }

    /** `_add_page_tags` */
    method AddPageTags(page: Compound, urltop: string)
      modifies this
      ensures refs == ApplyWrites(old(refs), PageWrites(page, urltop))
    {
      refs := refs[page.name := urltop + page.filename + ".html"];
      ghost var named := refs;
      var cs := page.children;
      for i := 0 to |cs|
        invariant refs == ApplyWrites(named, AnchorWrites(cs[..i], urltop))
      {
        assert cs[..i + 1][..i] == cs[..i];
        ghost var before := refs;
        if cs[i].DocAnchor? {
          refs := refs[cs[i].text := urltop + cs[i].file + ".html#" + cs[i].text];
        }
        ApplyWritesAppend(named, AnchorWrites(cs[..i], urltop), AnchorChildWrites(cs[i], urltop));
      }
      assert cs[..|cs|] == cs;
      ApplyWritesAppend(old(refs), [Write(page.name, urltop + page.filename + ".html")], AnchorWrites(cs, urltop));
    }

    /** `_add_member_tags` */
    method AddMemberTags(cs: seq<TagChild>, clsname: string, clsbase: Option<string>, urltop: string)
      modifies this
      ensures refs == ApplyWrites(old(refs), MemberWrites(cs, clsname, clsbase, urltop))
    {
      for i := 0 to |cs|
        invariant refs == ApplyWrites(old(refs), MemberWrites(cs[..i], clsname, clsbase, urltop))
      {
        assert cs[..i + 1][..i] == cs[..i];
        ghost var before := refs;
        var meth := cs[i];
        if meth.Member? && meth.kind == "function" {
          var url := AnchorUrl(urltop, meth.anchorfile, meth.anchor);
          var own := Write(clsname + "::" + meth.name, url);
          refs := refs[own.key := own.url];
          ApplyWritesAppendOne(before, [], own);
          assert [] + [own] == [own];
          if BaseOwns(clsbase, meth.anchorfile) {
            var inherited := Write(clsbase.value + "::" + meth.name, url);
            refs := refs[inherited.key := inherited.url];
            ApplyWritesAppendOne(before, [own], inherited);
          }
        }
        ApplyWritesAppend(old(refs), MemberWrites(cs[..i], clsname, clsbase, urltop), MemberChildWrites(meth, clsname, clsbase, urltop));
      }
      assert cs[..|cs|] == cs;
    }
  }

  /** Assignments applied in two runs are the assignments applied in one. */
  lemma {:induction false} ApplyWritesAppend(refs: map<string, string>, a: seq<Write>, b: seq<Write>)
    ensures ApplyWrites(refs, a + b) == ApplyWrites(ApplyWrites(refs, a), b)
    decreases |b|
  {
    if |b| == 0 {
      assert a + b == a;
    } else {
      assert (a + b)[..|a + b| - 1] == a + b[..|b| - 1];
      ApplyWritesAppend(refs, a, b[..|b| - 1]);
    }
  }

  lemma ApplyWritesAppendOne(refs: map<string, string>, a: seq<Write>, w: Write)
    ensures ApplyWrites(refs, a + [w]) == ApplyWrites(refs, a)[w.key := w.url]
  {
    assert (a + [w])[..|a|] == a;
  }
}

/** What the link table and `fix_links` promise, proved about the functions of `RefLinks`. */
module RefLinksProperties {
  import opened Base
  import opened Text
  import opened TextProperties
  import opened Patterns
  import opened RefLinks

  // ---- the dictionary ----

  /** A key is in the dictionary after the writes iff it was before or was written; the last write wins. */
  lemma {:induction false} LastWriteWins(refs: map<string, string>, ws: seq<Write>, key: string)
    ensures key in ApplyWrites(refs, ws) <==> key in refs || LastWrite(ws, key).Some?
    ensures key in ApplyWrites(refs, ws) ==>
      ApplyWrites(refs, ws)[key] == if LastWrite(ws, key).Some? then LastWrite(ws, key).value else refs[key]
  {
    if |ws| > 0 {
      LastWriteWins(refs, ws[..|ws| - 1], key);
    }
  }

  /** `LastWrite` gives the URL of the write to the key that no later write to the key follows. */
  lemma {:induction false} LastWriteAt(ws: seq<Write>, key: string, i: nat)
    requires i < |ws| && ws[i].key == key
    requires forall j :: i < j < |ws| ==> ws[j].key != key
    ensures LastWrite(ws, key) == Some(ws[i].url)
    decreases |ws|
  {
    var n := |ws| - 1;
    if i < n {
      assert ws[..n][i] == ws[i];
      LastWriteAt(ws[..n], key, i);
    }
  }

  /** `LastWrite` finds nothing exactly when no write is to the key. */
  lemma {:induction false} LastWriteNone(ws: seq<Write>, key: string)
    ensures LastWrite(ws, key).None? <==> forall i :: 0 <= i < |ws| ==> ws[i].key != key
  {
    if |ws| > 0 {
      var n := |ws| - 1;
      LastWriteNone(ws[..n], key);
      assert forall i :: 0 <= i < n ==> ws[..n][i] == ws[i];
    }
  }

  /** A name whose last write gave it a non-empty URL resolves to that URL. */
  lemma RegisteredNameResolves(refs: map<string, string>, ws: seq<Write>, key: string, url: string)
    requires LastWrite(ws, key) == Some(url) && url != ""
    ensures Resolve(ApplyWrites(refs, ws), key) == Success(url)
  {
    LastWriteWins(refs, ws, key);
  }

  predicate Named(refs: map<string, string>, key: string) {
    key in refs && refs[key] != ""
  }

  /** `p.q`, unknown as written, resolves through its spelling `p::q`. */
  lemma DottedNameResolvesScoped(refs: map<string, string>, p: string, q: string)
    requires '.' !in p && '.' !in q
    requires !Named(refs, p + "." + q) && Named(refs, p + "::" + q)
    ensures Resolve(refs, p + "." + q) == Success(refs[p + "::" + q])
  {
    DotBecomesScope(p, q);
  }

  /** A name without a dot that has no URL is a bad link: there is no other spelling to try. */
  lemma UndottedNameMissing(refs: map<string, string>, name: string)
    requires '.' !in name && !Named(refs, name)
    ensures Resolve(refs, name) == Failure(BadRef(name))
  {
    NoCharNoContains(name, '.');
    assert "." == ['.'];
  }

  // ---- what the tag records register ----

  predicate IsFunction(c: TagChild) {
    c.Member? && c.kind == "function"
  }

  /**
   * `_add_member_tags` writes exactly `cls::meth` for every function member, and
   * also `base::meth`, with the same URL, when the member's file is the base's.
   */
  lemma {:induction false} MemberWritesAreFunctions(cs: seq<TagChild>, cls: string, base: Option<string>, top: string, w: Write)
    ensures w in MemberWrites(cs, cls, base, top) <==>
      exists i :: 0 <= i < |cs| && IsFunction(cs[i]) &&
        (w == Write(cls + "::" + cs[i].name, AnchorUrl(top, cs[i].anchorfile, cs[i].anchor))
         || (BaseOwns(base, cs[i].anchorfile) && w == Write(base.value + "::" + cs[i].name, AnchorUrl(top, cs[i].anchorfile, cs[i].anchor))))
  {
    if |cs| > 0 {
      var n := |cs| - 1;
      MemberWritesAreFunctions(cs[..n], cls, base, top, w);
      assert forall i :: 0 <= i < n ==> cs[..n][i] == cs[i];
    }
  }

  /**
   * A function member that the base class owns, listed last under a derived class,
   * is reachable under both class names, and both give the member's URL.
   */
  lemma MemberResolvesUnderBothClasses(refs: map<string, string>, cs: seq<TagChild>, cls: string, base: Option<string>, top: string)
    requires |cs| > 0 && IsFunction(cs[|cs| - 1]) && BaseOwns(base, cs[|cs| - 1].anchorfile)
    ensures var m, refs' := cs[|cs| - 1], ApplyWrites(refs, MemberWrites(cs, cls, base, top));
      && Resolve(refs', cls + "::" + m.name) == Success(AnchorUrl(top, m.anchorfile, m.anchor))
      && Resolve(refs', base.value + "::" + m.name) == Success(AnchorUrl(top, m.anchorfile, m.anchor))
  {
    var m := cs[|cs| - 1];
    var url := AnchorUrl(top, m.anchorfile, m.anchor);
    var own, inherited := Write(cls + "::" + m.name, url), Write(base.value + "::" + m.name, url);
    var ws := MemberWrites(cs, cls, base, top);
    var before := MemberWrites(cs[..|cs| - 1], cls, base, top);
    assert ws == before + [own, inherited];
    assert url != "" by { assert url[|url| - |m.anchor| - 1] == '#'; }
    assert LastWrite(ws, inherited.key) == Some(url);
    assert (before + [own, inherited])[..|ws| - 1] == before + [own];
    assert LastWrite(ws, own.key) == Some(url);
    RegisteredNameResolves(refs, ws, own.key, url);
    RegisteredNameResolves(refs, ws, inherited.key, url);
  }

  predicate IsTypedef(c: TagChild) {
    c.Member? && c.kind == "typedef"
  }

  /** Child `i` of `cs` is a typedef inside a namespace, and `w` is what `_add_file_tags` writes for it. */
  predicate TypedefWriteAt(cs: seq<TagChild>, top: string, i: int, w: Write) {
    0 <= i < |cs| && IsTypedef(cs[i]) && NamespaceAfter(cs[..i]) != "" &&
    w == Write(NamespaceAfter(cs[..i]) + "::" + cs[i].name, AnchorUrl(top, cs[i].anchorfile, cs[i].anchor))
  }

  lemma TypedefWriteAtPrefix(cs: seq<TagChild>, top: string, i: int, w: Write)
    requires 0 <= i < |cs| - 1
    ensures TypedefWriteAt(cs[..|cs| - 1], top, i, w) <==> TypedefWriteAt(cs, top, i, w)
  {
    var n := |cs| - 1;
    assert cs[..n][i] == cs[i] && cs[..n][..i] == cs[..i];
  }

  lemma TypedefWriteAtLast(cs: seq<TagChild>, top: string, w: Write)
    requires |cs| > 0
    ensures w in FileChildWrites(cs[|cs| - 1], NamespaceAfter(cs), top) <==> TypedefWriteAt(cs, top, |cs| - 1, w)
  {
    var n := |cs| - 1;
    assert IsTypedef(cs[n]) ==> NamespaceAfter(cs) == NamespaceAfter(cs[..n]);
  }

  /**
   * `_add_file_tags` writes exactly `ns::name` for every typedef member that comes
   * after a `<namespace>` child, `ns` being the latest such namespace.
   */
  lemma {:induction false} FileWritesAreTypedefs(cs: seq<TagChild>, top: string, w: Write)
    ensures w in FileMemberWrites(cs, top) <==> exists i :: TypedefWriteAt(cs, top, i, w)
  {
    if |cs| > 0 {
      var n := |cs| - 1;
      FileWritesAreTypedefs(cs[..n], top, w);
      TypedefWriteAtLast(cs, top, w);
      forall i | 0 <= i < n ensures TypedefWriteAt(cs[..n], top, i, w) <==> TypedefWriteAt(cs, top, i, w) {
        TypedefWriteAtPrefix(cs, top, i, w);
      }
    }
  }

  // ---- the replacements ----

  /** The text of a `~name` link is a suffix of the name with neither `.` nor `::` in it. */
  lemma ShortNameIsLastComponent(txt: string)
    ensures EndsWith(txt, ShortName(txt))
    ensures !Contains(ShortName(txt), ".") && !Contains(ShortName(txt), "::")
  {
    var a := LastPart(txt, ".");
    var b := LastPart(a, "::");
    NotInSuffix(a, b, ".");
    SuffixOfSuffix(txt, a, b);
  }

  /** `split('.')[-1]` of `~p.q`, `q` without a dot, is `q`. */
  lemma AfterLastDot(p: string, q: string)
    requires '.' !in q
    ensures LastPart("~" + (p + "." + q), ".") == q
  {
    assert "~" + (p + "." + q) == ("~" + p) + ['.'] + q;
    assert "." == ['.'];
    LastPartAfterLast("~" + p, '.', q);
  }

  /** `split('::')[-1]` of `x::c`, `x` and `c` without a colon, is `c`. */
  lemma AfterScope(x: string, c: string)
    requires ':' !in x && ':' !in c
    ensures LastPart(x + "::" + c, "::") == c
  {
    FirstIndexAfter(x, "::", c);
    assert (x + "::" + c)[|x| + 2..] == c;
    NoColonNoScope(c);
    LastPartWithoutSep(c, "::");
  }

  lemma TildeName(name: string)
    ensures "~" <= "~" + name && ("~" + name)[1..] == name
  {
  }

  /**
   * ``` ``~p.x::c`` ``` shows only the last component `c` and links to `p.x::c`,
   * when `x` and `c` are plain names.
   */
  lemma TildeLinkShowsLastComponent(p: string, x: string, c: string)
    requires '.' !in x && ':' !in x && '.' !in c && ':' !in c
    ensures BacktickLink("~" + (p + "." + (x + "::" + c))) == RefMarkdown(c, p + "." + (x + "::" + c))
  {
    var q := x + "::" + c;
    TildeName(p + "." + q);
    AfterLastDot(p, q);
    AfterScope(x, c);
  }

  /** A `~` name with no `.` and no `::` keeps its `~` in the link text, though not in the target. */
  lemma TildeWithoutScopeKeepsTilde(x: string)
    requires '.' !in x && ':' !in x
    ensures BacktickLink("~" + x) == RefMarkdown("~" + x, x)
  {
    var txt := "~" + x;
    assert "." == ['.'];
    NoCharNoContains(txt, '.');
    LastPartWithoutSep(txt, ".");
    NoColonNoScope(txt);
    LastPartWithoutSep(txt, "::");
    assert txt[1..] == x;
  }

  // ---- fix_links ----

  lemma NoPercentNoInclude(h: string, rest: string)
    requires '%' !in h
    ensures forall i :: 0 <= i < |h| ==> IncludeLink((h + rest)[i..]).None?
  {
    assert "%%include"[0] == '%';
    NoAtNoKeyword("%%include", h, rest);
  }

  lemma NoAtNoRef(h: string, rest: string)
    requires '@' !in h
    ensures forall i :: 0 <= i < |h| ==> RefLink((h + rest)[i..]).None?
  {
    assert "@ref"[0] == '@';
    NoAtNoKeyword("@ref", h, rest);
  }

  /** `fix_links` once its includes are done: the backtick pass, then the `@ref` pass. */
  lemma FixLinksAfterInclude(refs: map<string, string>, files: map<string, string>, c: string, included: string)
    requires SubAll(IncludeLink, c, Includer(files)) == Success(included)
    ensures FixLinks(refs, files, c) == SubAll(RefLink, Rewrite(DoubleBackticks, included, BacktickLink), Resolver(refs))
  {
  }

  lemma NothingToInclude(files: map<string, string>, c: string)
    requires '%' !in c
    ensures SubAll(IncludeLink, c, Includer(files)) == Success(c)
  {
    assert c + [] == c;
    NoPercentNoInclude(c, []);
    SubAllUnchanged(IncludeLink, c, Includer(files));
  }

  lemma NoBacktickLinks(c: string)
    requires '`' !in c
    ensures Rewrite(DoubleBackticks, c, BacktickLink) == c
  {
    assert c + [] == c;
    NoBacktickNoDoubleBacktick(c, []);
    RewriteUnchanged(DoubleBackticks, c, BacktickLink);
  }

  lemma NoRefLinks(refs: map<string, string>, c: string)
    requires '@' !in c
    ensures SubAll(RefLink, c, Resolver(refs)) == Success(c)
  {
    assert c + [] == c;
    NoAtNoRef(c, []);
    SubAllUnchanged(RefLink, c, Resolver(refs));
  }

  /** Without `%` or a backtick, only the `@ref` pass of `fix_links` has anything to do. */
  lemma OnlyRefPass(refs: map<string, string>, files: map<string, string>, c: string)
    requires '%' !in c && '`' !in c
    ensures FixLinks(refs, files, c) == SubAll(RefLink, c, Resolver(refs))
  {
    NothingToInclude(files, c);
    FixLinksAfterInclude(refs, files, c, c);
    NoBacktickLinks(c);
  }

  /** Text without `%`, a backtick or `@` has no markup, and `fix_links` returns it unchanged. */
  lemma PlainTextUnchanged(refs: map<string, string>, files: map<string, string>, c: string)
    requires '%' !in c && '`' !in c && '@' !in c
    ensures FixLinks(refs, files, c) == Success(c)
  {
    OnlyRefPass(refs, files, c);
    NoRefLinks(refs, c);
  }

  /** `%%include path` is replaced by the contents of the file. */
  lemma IncludeInserted(files: map<string, string>, h: string, path: string, t: string)
    requires '%' !in h && '%' !in t
    requires |path| > 0 && NoSpace(path) && ')' !in path
    requires |t| == 0 || IsSpace(t[0]) || t[0] == ')'
    requires path in files
    ensures SubAll(IncludeLink, h + ("%%include" + " " + path) + t, Includer(files)) == Success(h + files[path] + t)
  {
    var mid := "%%include" + " " + path;
    NoPercentNoInclude(h, mid + t);
    assert h + (mid + t) == h + mid + t;
    KeywordMatch("%%include", path, t);
    NoPercentNoInclude(t, []);
    assert t + [] == t;
    SubAllOne(IncludeLink, h, mid, t, path, Includer(files), files[path]);
  }

  /** `%%include` of a file that does not exist raises. */
  lemma MissingIncludeFails(files: map<string, string>, h: string, path: string, t: string)
    requires '%' !in h
    requires |path| > 0 && NoSpace(path) && ')' !in path
    requires |t| == 0 || IsSpace(t[0]) || t[0] == ')'
    requires path !in files
    ensures SubAll(IncludeLink, h + ("%%include" + " " + path + t), Includer(files)) == Failure(MissingFile(path))
  {
    var s := "%%include" + " " + path + t;
    NoPercentNoInclude(h, s);
    KeywordMatch("%%include", path, t);
    SubAllFailsHere(IncludeLink, h, s, path, Includer(files));
  }

  /** A backtick link to a plain name becomes an `@ref` link to that name. */
  lemma BacktickBecomesRef(h: string, name: string, t: string)
    requires '`' !in h && '`' !in t
    requires |name| > 0 && NoSpace(name) && '`' !in name && name[0] != '~'
    ensures Rewrite(DoubleBackticks, h + ("``" + name + "``") + t, BacktickLink) == h + RefMarkdown(name, name) + t
  {
    var mid := "``" + name + "``";
    NoBacktickNoDoubleBacktick(h, mid + t);
    assert h + (mid + t) == h + mid + t;
    DoubleBacktickMatch(name, t);
    NoBacktickNoDoubleBacktick(t, []);
    assert t + [] == t;
    RewriteOne(DoubleBackticks, h, mid, t, name, BacktickLink);
  }

  /** `@ref name` is replaced by the URL the name resolves to. */
  lemma RefReplaced(refs: map<string, string>, h: string, name: string, t: string, url: string)
    requires '@' !in h && '@' !in t
    requires |name| > 0 && NoSpace(name) && ')' !in name
    requires |t| == 0 || IsSpace(t[0]) || t[0] == ')'
    requires Resolve(refs, name) == Success(url)
    ensures SubAll(RefLink, h + ("@ref" + " " + name) + t, Resolver(refs)) == Success(h + url + t)
  {
    var mid := "@ref" + " " + name;
    NoAtNoRef(h, mid + t);
    assert h + (mid + t) == h + mid + t;
    KeywordMatch("@ref", name, t);
    NoAtNoRef(t, []);
    assert t + [] == t;
    SubAllOne(RefLink, h, mid, t, name, Resolver(refs), url);
  }

  /** An `@ref` to a name that does not resolve raises "Bad @ref link" for that name. */
  lemma BadRefRaises(refs: map<string, string>, h: string, name: string, t: string)
    requires '@' !in h
    requires |name| > 0 && NoSpace(name) && ')' !in name
    requires |t| == 0 || IsSpace(t[0]) || t[0] == ')'
    requires Resolve(refs, name).Failure?
    ensures SubAll(RefLink, h + ("@ref" + " " + name + t), Resolver(refs)) == Failure(BadRef(name))
  {
    var s := "@ref" + " " + name + t;
    NoAtNoRef(h, s);
    KeywordMatch("@ref", name, t);
    SubAllFailsHere(RefLink, h, s, name, Resolver(refs));
  }

  /**
   * The `[name](@ref name)` a backtick link becomes, between `h` and `t`, is an
   * `@ref name` after text with no `@` and before a `)`.
   */
  lemma RefMarkdownSplit(h: string, name: string, t: string)
    requires '@' !in h && '@' !in name
    ensures h + RefMarkdown(name, name) + t == (h + ("[" + name + "](")) + ("@ref" + " " + name) + (")" + t)
    ensures '@' !in h + ("[" + name + "](")
  {
    assert RefMarkdown(name, name) == ("[" + name + "](") + ("@ref" + " " + name) + ")";
  }

  /**
   * `fix_links` rewrites backtick links before `@ref` links, so ``` ``name`` ``` ends
   * up as a markdown link to the URL of `name` in the same call.
   */
  lemma BacktickLinkResolved(refs: map<string, string>, files: map<string, string>, h: string, name: string, t: string, url: string)
    requires '%' !in h && '`' !in h && '@' !in h
    requires '%' !in t && '`' !in t && '@' !in t
    requires |name| > 0 && NoSpace(name) && name[0] != '~'
    requires '%' !in name && '`' !in name && '@' !in name && ')' !in name
    requires Resolve(refs, name) == Success(url)
    ensures FixLinks(refs, files, h + ("``" + name + "``") + t) == Success(h + ("[" + name + "](") + url + (")" + t))
  {
    var c := h + ("``" + name + "``") + t;
    TickTextPercentFree(h, name, t);
    NothingToInclude(files, c);
    FixLinksAfterInclude(refs, files, c, c);
    BacktickBecomesRef(h, name, t);
    RefMarkdownSplit(h, name, t);
    RefReplaced(refs, h + ("[" + name + "]("), name, ")" + t, url);
  }

  lemma TickTextPercentFree(h: string, name: string, t: string)
    requires '%' !in h && '%' !in name && '%' !in t
    ensures '%' !in h + ("``" + name + "``") + t
  {
  }

  lemma RefTextMarkupFree(h: string, name: string, t: string, ch: char)
    requires ch != '@' && ch != 'r' && ch != 'e' && ch != 'f' && ch != ' '
    requires ch !in h && ch !in name && ch !in t
    ensures ch !in h + ("@ref" + " " + name + t)
  {
  }

  /** An `@ref` that does not resolve makes `fix_links` raise, whatever else the text holds. */
  lemma UnresolvedRefFails(refs: map<string, string>, files: map<string, string>, h: string, name: string, t: string)
    requires '%' !in h && '`' !in h && '@' !in h
    requires '%' !in t && '`' !in t
    requires |name| > 0 && NoSpace(name) && ')' !in name && '%' !in name && '`' !in name
    requires |t| == 0 || IsSpace(t[0]) || t[0] == ')'
    requires Resolve(refs, name).Failure?
    ensures FixLinks(refs, files, h + ("@ref" + " " + name + t)) == Failure(BadRef(name))
  {
    var c := h + ("@ref" + " " + name + t);
    RefTextMarkupFree(h, name, t, '%');
    RefTextMarkupFree(h, name, t, '`');
    OnlyRefPass(refs, files, c);
    BadRefRaises(refs, h, name, t);
  }
}
