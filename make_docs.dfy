/**
 * doxygen/make-docs.py: the tutorial's title read from its metadata.yaml, and the
 * Doxyfile written from doxygen's default configuration with eight settings
 * replaced.
 *
 * The file system is a map from path to the file's lines (each with its "\n");
 * doxygen's default configuration and its exit status are parameters.
 */
module MakeDocs {
  import opened Base
  import opened Text
  import opened TextProperties

  // ---- read_yaml_file and get_title ----

  /** `line.split(':', 1)[1]`: what follows the first colon. */
  function AfterFirstColon(line: string): string
    requires Contains(line, ":")
  {
    match FirstIndex(line, ":")
    case Some(i) => line[i + 1..]
  }

  predicate IsTitleLine(line: string) {
    "title:" <= line
  }

  /** What `read_yaml_file` returns for a file with these lines. */
  function YamlTitle(lines: seq<string>): Option<string> {
    if |lines| == 0 then None
    else if IsTitleLine(lines[0]) then
      TitleValue(lines[0]);
      Some(Strip(AfterFirstColon(lines[0])))
    else YamlTitle(lines[1..])
  }

  /** `read_yaml_file`: the first `title:` line's value, stripped; `None` if there is none. */
  method ReadYamlFile(lines: seq<string>) returns (title: Option<string>)
    ensures title == YamlTitle(lines)
  {
    for i := 0 to |lines|
      invariant YamlTitle(lines[i..]) == YamlTitle(lines)
    {
      assert lines[i..][1..] == lines[i + 1..];
      var line := lines[i];
      if "title:" <= line {
        TitleValue(line);
        return Some(Strip(AfterFirstColon(line)));
      }
    }
    return None;
  }

  /** The value of a `title:` line is what follows `title:`. */
  lemma TitleValue(line: string)
    requires IsTitleLine(line)
    ensures Contains(line, ":") && AfterFirstColon(line) == line[6..]
  {
    assert line == "title" + ":" + line[6..];
    FirstIndexAfter("title", ":", line[6..]);
    ContainsAt(line, ":", 5);
  }

  const SupportMetadata := "../support/metadata.yaml"
  const OwnMetadata := "../metadata/metadata.yaml"
  const MetadataPaths := [SupportMetadata, OwnMetadata]

  /** `get_title`: the title from the first metadata file that exists, in the order of `MetadataPaths`. */
  method GetTitle(files: map<string, seq<string>>) returns (r: Result<Option<string>>)
    ensures SupportMetadata in files ==> r == Success(YamlTitle(files[SupportMetadata]))
    ensures SupportMetadata !in files && OwnMetadata in files ==> r == Success(YamlTitle(files[OwnMetadata]))
    ensures SupportMetadata !in files && OwnMetadata !in files ==> r == Failure(NoMetadata(MetadataPaths))
  {
    var fnames := MetadataPaths;
    assert |fnames| == 2 && fnames[0] == SupportMetadata && fnames[1] == OwnMetadata;
    for i := 0 to |fnames|
      invariant forall j :: 0 <= j < i ==> fnames[j] !in files
    {
      var fname := fnames[i];
      if fname in files {
        var title := ReadYamlFile(files[fname]);
        return Success(title);
      }
    }
    return Failure(NoMetadata(fnames));
  }

  // ---- make_doxyfile ----

  /**
   * One branch of `make_doxyfile`'s if/elif chain: a line starting with `word` and a
   * space becomes that key, `= `, the value and a newline.
   */
  datatype Setting = Setting(word: string, value: string)

  function Key(s: Setting): string {
    s.word + " "
  }

  function SettingLine(s: Setting): string {
    Key(s) + "= " + s.value + "\n"
  }

  const Pth := "../support/tutorial_tools/doxygen"

  /** `'%s' % title`: a missing title is written as `None`. */
  function TitleText(title: Option<string>): string {
    if title.Some? then title.value else "None"
  }

  /** The chain of `make_doxyfile`, in its order. */
  function DoxySettings(title: Option<string>): seq<Setting> {
    [ Setting("LAYOUT_FILE", Pth + "/layout.xml"),
      Setting("PROJECT_NAME", "\"" + TitleText(title) + "\""),
      Setting("INPUT", "."),
      Setting("IMAGE_PATH", "images"),
      Setting("HTML_HEADER", Pth + "/header.html"),
      Setting("HTML_FOOTER", Pth + "/footer.html"),
      Setting("GENERATE_LATEX", "NO"),
      Setting("TAGFILES", "ref-tags.xml=../../nightly/doc/ref/ manual-tags.xml=../../nightly/doc/manual/") ]
  }

  /** An if/elif chain over `settings`: the first setting whose key starts the line replaces it. */
  function RewriteLine(settings: seq<Setting>, line: string): (r: string)
    ensures (forall i :: 0 <= i < |settings| ==> !(Key(settings[i]) <= line)) ==> r == line
    ensures r == line || exists j :: 0 <= j < |settings| && Key(settings[j]) <= line && r == SettingLine(settings[j])
                                     && forall i :: 0 <= i < j ==> !(Key(settings[i]) <= line)
  {
    if |settings| == 0 then line
    else if Key(settings[0]) <= line then SettingLine(settings[0])
    else
      var r := RewriteLine(settings[1..], line);
      assert forall i :: 1 <= i < |settings| ==> settings[1..][i - 1] == settings[i];
      r
  }

  /** The loop of `make_doxyfile` over doxygen's default configuration. */
  method RewriteDoxyfile(settings: seq<Setting>, generated: seq<string>) returns (out: seq<string>)
    ensures |out| == |generated|
    ensures forall i :: 0 <= i < |out| ==> out[i] == RewriteLine(settings, generated[i])
  {
    out := [];
    for i := 0 to |generated|
      invariant |out| == i
      invariant forall k :: 0 <= k < i ==> out[k] == RewriteLine(settings, generated[k])
    {
      var line := RewriteLine(settings, generated[i]);
      out := out + [line];
    }
  }

  /**
   * `make_doxyfile`: without a metadata file nothing is written; otherwise the
   * Doxyfile is written, and a non-zero exit status of doxygen then raises.
   */
  method MakeDoxyfile(files: map<string, seq<string>>, generated: seq<string>, status: int)
    returns (doxyfile: Option<seq<string>>, err: Option<Error>)
    ensures SupportMetadata !in files && OwnMetadata !in files ==>
      doxyfile.None? && err == Some(NoMetadata(MetadataPaths))
    ensures SupportMetadata in files || OwnMetadata in files ==>
      doxyfile.Some? && |doxyfile.value| == |generated|
      && (forall i :: 0 <= i < |generated| ==>
            doxyfile.value[i] == RewriteLine(DoxySettings(TitleOf(files)), generated[i]))
      && err == (if status != 0 then Some(DoxygenFailed(status)) else None)
  {
    var title := GetTitle(files);
    if title.Failure? {
      return None, Some(title.error);
    }
    var out := RewriteDoxyfile(DoxySettings(title.value), generated);
    doxyfile := Some(out);
    err := if status != 0 then Some(DoxygenFailed(status)) else None;
  }

  /** The title `get_title` finds when a metadata file exists. */
  function TitleOf(files: map<string, seq<string>>): Option<string> {
    if SupportMetadata in files then YamlTitle(files[SupportMetadata])
    else if OwnMetadata in files then YamlTitle(files[OwnMetadata])
    else None
  }
}

/** What the title lookup and the Doxyfile rewrite promise, proved about the functions of `MakeDocs`. */
module MakeDocsProperties {
  import opened Base
  import opened Text
  import opened TextProperties
  import opened MakeDocs

  /** `read_yaml_file` gives the stripped value of the first `title:` line. */
  lemma {:induction false} YamlTitleAt(lines: seq<string>, i: nat)
    requires i < |lines| && IsTitleLine(lines[i])
    requires forall j :: 0 <= j < i ==> !IsTitleLine(lines[j])
    ensures YamlTitle(lines) == Some(Strip(lines[i][6..]))
  {
    if i == 0 {
      TitleValue(lines[0]);
    } else {
      assert lines[1..][i - 1] == lines[i];
      assert forall j :: 0 <= j < i - 1 ==> lines[1..][j] == lines[j + 1];
      YamlTitleAt(lines[1..], i - 1);
    }
  }

  /** `read_yaml_file` returns `None` exactly when no line starts with `title:`. */
  lemma {:induction false} YamlTitleNone(lines: seq<string>)
    ensures YamlTitle(lines).None? <==> forall i :: 0 <= i < |lines| ==> !IsTitleLine(lines[i])
  {
    if |lines| > 0 {
      YamlTitleNone(lines[1..]);
      assert forall i :: 1 <= i < |lines| ==> lines[1..][i - 1] == lines[i];
    }
  }

  /** Distinct words without spaces never start each other's lines. */
  lemma OtherKeyNotPrefix(a: Setting, b: Setting)
    requires ' ' !in a.word && ' ' !in b.word && a.word != b.word
    ensures !(Key(a) <= SettingLine(b))
  {
    var ka, line := Key(a), SettingLine(b);
    assert line[..|b.word|] == b.word && line[|b.word|] == ' ';
    if |a.word| < |b.word| {
      assert ka[|a.word|] == ' ' && line[|a.word|] == b.word[|a.word|];
    } else if |a.word| > |b.word| {
      assert ka[|b.word|] == a.word[|b.word|];
    } else {
      assert ka[..|a.word|] == a.word;
    }
  }

  lemma OwnKeyPrefix(s: Setting)
    ensures Key(s) <= SettingLine(s)
  {
  }

  /** The words of a chain have no spaces and are distinct. */
  predicate WellFormed(settings: seq<Setting>) {
    (forall i :: 0 <= i < |settings| ==> ' ' !in settings[i].word)
    && forall i, j :: 0 <= i < j < |settings| ==> settings[i].word != settings[j].word
  }

  /** Rewriting a rewritten line changes nothing: each replacement starts with its own key and no earlier one. */
  lemma RewriteIdempotent(settings: seq<Setting>, line: string)
    requires WellFormed(settings)
    ensures RewriteLine(settings, RewriteLine(settings, line)) == RewriteLine(settings, line)
  {
    var r := RewriteLine(settings, line);
    if r != line {
      var j :| 0 <= j < |settings| && Key(settings[j]) <= line && r == SettingLine(settings[j])
               && forall i :: 0 <= i < j ==> !(Key(settings[i]) <= line);
      forall i | 0 <= i < j ensures !(Key(settings[i]) <= r) {
        OtherKeyNotPrefix(settings[i], settings[j]);
      }
      OwnKeyPrefix(settings[j]);
      RewriteFindsFirst(settings, r, j);
    }
  }

  /** The chain picks the first setting whose key starts the line. */
  lemma {:induction false} RewriteFindsFirst(settings: seq<Setting>, line: string, j: nat)
    requires j < |settings| && Key(settings[j]) <= line
    requires forall i :: 0 <= i < j ==> !(Key(settings[i]) <= line)
    ensures RewriteLine(settings, line) == SettingLine(settings[j])
  {
    if j > 0 {
      assert settings[1..][j - 1] == settings[j];
      assert forall i :: 0 <= i < j - 1 ==> settings[1..][i] == settings[i + 1];
      RewriteFindsFirst(settings[1..], line, j - 1);
    }
  }

  /** The eight settings of `make_doxyfile` have distinct one-word keys. */
  lemma DoxySettingsWellFormed(title: Option<string>)
    ensures WellFormed(DoxySettings(title))
  {
    var s := DoxySettings(title);
    DoxyWordsNoSpace(s);
    DoxyWordsDistinct(s);
  }

  lemma DoxyWordsNoSpace(s: seq<Setting>)
    requires |s| == 8 && s[0].word == "LAYOUT_FILE" && s[1].word == "PROJECT_NAME" && s[2].word == "INPUT"
    requires s[3].word == "IMAGE_PATH" && s[4].word == "HTML_HEADER" && s[5].word == "HTML_FOOTER"
    requires s[6].word == "GENERATE_LATEX" && s[7].word == "TAGFILES"
    ensures forall i :: 0 <= i < |s| ==> ' ' !in s[i].word
  {
    assert ' ' !in "LAYOUT_FILE";
    assert ' ' !in "PROJECT_NAME";
    assert ' ' !in "INPUT";
    assert ' ' !in "IMAGE_PATH";
    assert ' ' !in "HTML_HEADER";
    assert ' ' !in "HTML_FOOTER";
    assert ' ' !in "GENERATE_LATEX";
    assert ' ' !in "TAGFILES";
  }

  lemma DoxyWordsDistinct(s: seq<Setting>)
    requires |s| == 8 && s[0].word == "LAYOUT_FILE" && s[1].word == "PROJECT_NAME" && s[2].word == "INPUT"
    requires s[3].word == "IMAGE_PATH" && s[4].word == "HTML_HEADER" && s[5].word == "HTML_FOOTER"
    requires s[6].word == "GENERATE_LATEX" && s[7].word == "TAGFILES"
    ensures forall i, j :: 0 <= i < j < |s| ==> s[i].word != s[j].word
  {
  }

  /** The Doxyfile rewrite is idempotent: rewriting a written Doxyfile again gives the same file. */
  lemma DoxyfileRewriteIdempotent(title: Option<string>, line: string)
    ensures RewriteLine(DoxySettings(title), RewriteLine(DoxySettings(title), line)) == RewriteLine(DoxySettings(title), line)
  {
    DoxySettingsWellFormed(title);
    RewriteIdempotent(DoxySettings(title), line);
  }

  /** The project name is the title in quotes, or `"None"` when the metadata has no title. */
  lemma ProjectNameLine(title: Option<string>, line: string)
    requires Key(Setting("PROJECT_NAME", "")) <= line
    ensures RewriteLine(DoxySettings(title), line) == SettingLine(Setting("PROJECT_NAME", "\"" + TitleText(title) + "\""))
  {
    var s := DoxySettings(title);
    assert s[0].word[0] != line[0];
    RewriteFindsFirst(s, line, 1);
  }
}
