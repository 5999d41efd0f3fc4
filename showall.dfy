/**
 * The tutorial index of www/showall.py: repository names normalised to tutorial
 * names, the dependency-based order of tutorials, and the choice of the
 * tutorials that appear in the index.
 */
module ShowAll {
  import opened Base
  import opened Text

  /** `name.endswith(suffix)` and `name.startswith(prefix)` are `EndsWith` and `<=`. */
  const SpecialRepo := "imp_tutorial"
  const SpecialName := "rnapolii_stalk"

  /** `_filter_repo_name`: the original tutorial repository keeps its old name; others lose `imp_` and `_tutorial`. */
  function FilterRepoName(name: string): string {
    if name == SpecialRepo then SpecialName
    else
      var n := if "imp_" <= name then name[4..] else name;
      if EndsWith(n, "_tutorial") then n[..|n| - 9] else n
  }

  /** A YAML scalar as `yaml.safe_load` gives it, as far as the index cares. */
  datatype Scalar = Bool(b: bool) | Text(s: string) | Number(n: int)

  /** The keys of a tutorial's metadata.yaml that the index reads; a missing key is `None`. */
  datatype Metadata = Metadata(depends: Option<seq<string>>, showInIndex: Option<Scalar>, title: string, description: Option<string>)

  /** A tutorial and the set of (normalised) names of the tutorials it depends on. */
  datatype Tutorial = Tutorial(name: string, metadata: Metadata, deps: set<string>)

  /** The frozenset of the normalised names in `xs`. */
  function DepSet(xs: seq<string>): (r: set<string>)
    ensures forall d :: d in r <==> exists i :: 0 <= i < |xs| && FilterRepoName(xs[i]) == d
  {
    if |xs| == 0 then {}
    else
      var init := xs[..|xs| - 1];
      assert forall i :: 0 <= i < |init| ==> init[i] == xs[i];
      DepSet(init) + {FilterRepoName(xs[|xs| - 1])}
  }

  /** `Tutorial.__init__`: the dependencies listed under `depends`, none if the key is missing. */
  function NewTutorial(name: string, metadata: Metadata): Tutorial {
    Tutorial(name, metadata, DepSet(if metadata.depends.Some? then metadata.depends.value else []))
  }

  /** `Tutorial.__lt__` */
  predicate Less(a: Tutorial, b: Tutorial) {
    if b.name in a.deps then false
    else if a.name in b.deps then true
    else |a.deps| < |b.deps|
  }

  /** Whether `print_tutorial_list` lists a tutorial: only an explicit `show_in_index: false` hides it. */
  predicate Shown(metadata: Metadata) {
    metadata.showInIndex != Some(Bool(false))
  }

  /** The tutorials `print_tutorial_list` collects from the (directory, metadata) pairs it finds, in order. */
  function Listed(found: seq<(string, Metadata)>): seq<Tutorial> {
    if |found| == 0 then []
    else
      var last := found[|found| - 1];
      Listed(found[..|found| - 1]) + (if Shown(last.1) then [NewTutorial(last.0, last.1)] else [])
  }

  /** The loop of `print_tutorial_list` that builds `ts`, skipping hidden tutorials. */
  method CollectTutorials(found: seq<(string, Metadata)>) returns (ts: seq<Tutorial>)
    ensures ts == Listed(found)
  {
    ts := [];
    for i := 0 to |found|
      invariant ts == Listed(found[..i])
    {
      assert found[..i + 1][..i] == found[..i];
      var dirname := found[i].0;
      var metadata := found[i].1;
      if metadata.showInIndex == Some(Bool(false)) {
        continue;
      }
      ts := ts + [NewTutorial(dirname, metadata)];
    }
    assert found[..|found|] == found;
  }
}

/** What the index promises about names, order and selection, proved about the functions of `ShowAll`. */
module ShowAllProperties {
  import opened Base
  import opened Text
  import opened ShowAll

  /** The original tutorial repository is renamed. */
  lemma SpecialRepoRenamed()
    ensures FilterRepoName("imp_tutorial") == "rnapolii_stalk"
  {
  }

  lemma ImpPrefixAndSuffix(n: string)
    ensures "imp_" <= "imp_" + n + "_tutorial"
    ensures ("imp_" + n + "_tutorial")[4..] == n + "_tutorial"
    ensures EndsWith(n + "_tutorial", "_tutorial")
    ensures (n + "_tutorial")[..|n|] == n
  {
    var s := n + "_tutorial";
    assert s[|s| - 9..] == "_tutorial";
  }

  /** `imp_<n>_tutorial` becomes `<n>`. */
  lemma BothAffixesRemoved(n: string)
    ensures FilterRepoName("imp_" + n + "_tutorial") == n
  {
    ImpPrefixAndSuffix(n);
    assert |"imp_" + n + "_tutorial"| != |SpecialRepo|;
  }

  /** `imp_<n>` becomes `<n>` when `<n>` does not end in `_tutorial` (and is not `tutorial`, which is special). */
  lemma PrefixRemoved(n: string)
    requires !EndsWith(n, "_tutorial") && n != "tutorial"
    ensures FilterRepoName("imp_" + n) == n
  {
    assert ("imp_" + n)[4..] == n;
    assert SpecialRepo[4..] == "tutorial";
  }

  /** `<n>_tutorial` becomes `<n>` when `<n>` does not start with `imp_` (and is not `imp`, which is special). */
  lemma SuffixRemoved(n: string)
    requires !("imp_" <= n) && n != "imp"
    ensures FilterRepoName(n + "_tutorial") == n
  {
    var s := n + "_tutorial";
    assert s[|s| - 9..] == "_tutorial" && s[..|n|] == n;
    assert SpecialRepo[..3] == "imp";
    if |n| >= 4 {
      assert s[..4] == n[..4];
    } else {
      assert s[|n|] == '_';
    }
  }

  /** A name with neither affix is kept as it is. */
  lemma PlainNameKept(name: string)
    requires !("imp_" <= name) && !EndsWith(name, "_tutorial")
    ensures FilterRepoName(name) == name
  {
  }

  /** A tutorial with no `depends` key depends on nothing. */
  lemma NoDependsNoDeps(name: string, metadata: Metadata)
    requires metadata.depends.None?
    ensures NewTutorial(name, metadata).deps == {}
  {
  }

  /** A tutorial is never ordered before itself. */
  lemma LessIrreflexive(t: Tutorial)
    ensures !Less(t, t)
  {
  }

  /** Two tutorials are never each ordered before the other. */
  lemma LessAsymmetric(a: Tutorial, b: Tutorial)
    requires Less(a, b)
    ensures !Less(b, a)
  {
  }

  /** A tutorial is ordered after every tutorial it depends on, and before every tutorial that depends on it. */
  lemma DependencyOrdered(a: Tutorial, b: Tutorial)
    requires b.name in a.deps && a.name !in b.deps
    ensures Less(b, a) && !Less(a, b)
  {
  }

  /**
   * The order is not transitive, even over acyclic dependencies: here `a` depends on
   * `c`, `b` depends on `a`, and `c` depends on two other tutorials, and yet
   * `a < b`, `b < c` and `c < a`.
   */
  lemma LessNotTransitive()
    ensures var m := Metadata(None, None, "", None);
            var a := Tutorial("a", m, {"c", "y"});
            var b := Tutorial("b", m, {"a"});
            var c := Tutorial("c", m, {"p", "q"});
            Less(a, b) && Less(b, c) && Less(c, a)
  {
    var p: string, q: string, y: string := "p", "q", "y";
    assert p != q && "a" != "c" && "b" != "c" && "b" != "a" && "a" != y && "b" != y;
    assert |{p, q}| == 2;
    assert |{"a"}| == 1;
  }

  /** Every listed tutorial comes from a found entry that is shown. */
  lemma {:induction false} ListedAreShown(found: seq<(string, Metadata)>, t: Tutorial)
    ensures t in Listed(found) <==> exists i :: 0 <= i < |found| && Shown(found[i].1) && t == NewTutorial(found[i].0, found[i].1)
  {
    if |found| > 0 {
      var n := |found| - 1;
      ListedAreShown(found[..n], t);
      assert forall i :: 0 <= i < n ==> found[..n][i] == found[i];
    }
  }

  /** A tutorial whose metadata has no `show_in_index` key is listed. */
  lemma MissingKeyListed(found: seq<(string, Metadata)>, i: nat)
    requires i < |found| && found[i].1.showInIndex.None?
    ensures NewTutorial(found[i].0, found[i].1) in Listed(found)
  {
    ListedAreShown(found, NewTutorial(found[i].0, found[i].1));
  }

  /** Only `show_in_index: false` hides a tutorial; `"false"` or `0` does not. */
  lemma OnlyFalseHides(m: Metadata)
    ensures !Shown(m) <==> m.showInIndex == Some(Bool(false))
    ensures m.showInIndex == Some(Text("false")) || m.showInIndex == Some(Number(0)) ==> Shown(m)
  {
  }
}
