/**
 * The regular expressions of the scripts, each written out as the deterministic
 * matcher it amounts to, and Python's `re.sub` as a left-to-right scan.
 *
 * A greedy run such as `\s+` or `[^\s)]+` cannot give characters back usefully in
 * any of these patterns (what follows it is never a character of the run), so each
 * matcher takes the longest run and checks what follows.
 */
module Patterns {
  import opened Base
  import opened Text

  datatype CharClass = Space | NonSpace | NonSpaceExcept(stop: char) | Exactly(c: char)

  predicate InClass(c: char, k: CharClass) {
    match k
    case Space => IsSpace(c)
    case NonSpace => !IsSpace(c)
    case NonSpaceExcept(stop) => !IsSpace(c) && c != stop
    case Exactly(d) => c == d
  }

  /** End of the longest run of class `k` starting at `i`. */
  function RunEnd(s: string, i: nat, k: CharClass): (j: nat)
    requires i <= |s|
    ensures i <= j <= |s|
    ensures forall x :: i <= x < j ==> InClass(s[x], k)
    ensures j < |s| ==> !InClass(s[j], k)
    decreases |s| - i
  {
    if i < |s| && InClass(s[i], k) then RunEnd(s, i + 1, k) else i
  }

  /** `RunEnd` is the end of the run: any `j` bounding a maximal run is it. */
  lemma RunEndIs(s: string, i: nat, k: CharClass, j: nat)
    requires i <= j <= |s|
    requires forall x :: i <= x < j ==> InClass(s[x], k)
    requires j == |s| || !InClass(s[j], k)
    ensures RunEnd(s, i, k) == j
  {
  }

  /** A run of class `k` from `i` to `x` ends no later than `RunEnd`. */
  lemma {:induction false} RunEndCovers(s: string, i: nat, k: CharClass, x: nat)
    requires i <= x <= |s|
    requires forall y :: i <= y < x ==> InClass(s[y], k)
    ensures x <= RunEnd(s, i, k)
    decreases x - i
  {
    if i < x {
      RunEndCovers(s, i + 1, k, x);
    }
  }

  /** A match at the start of a string: the text of its one group and its length. */
  datatype Match = Match(group: string, len: nat)

  /**
   * `re.match('<kw>\s+([^\s)]+)', s)`, the form of `%%include`, `@ref` and `@file`:
   * a match is `kw`, white space, then the group, a run of `[^\s)]` that ends the
   * match at the end of the text, at white space or at `)`.
   */
  function MatchKeyword(kw: string, s: string): (r: Option<Match>)
    ensures r.Some? ==> 0 < r.value.len <= |s| && kw <= s
    ensures r.Some? ==>
      var g, n := r.value.group, r.value.len;
      && |kw| < n - |g|
      && AllSpace(s[|kw|..n - |g|])
      && g == s[n - |g|..n] && |g| > 0 && NoSpace(g) && ')' !in g
      && (n == |s| || IsSpace(s[n]) || s[n] == ')')
  {
    if kw <= s && |kw| < |s| && IsSpace(s[|kw|]) then
      var j := RunEnd(s, |kw|, Space);
      var k := RunEnd(s, j, NonSpaceExcept(')'));
      if j < k then Some(Match(s[j..k], k)) else None
    else None
  }

  /** `re.match('``([^\s`]+)``', s)`: two backticks, a run of `[^\s`]`, two backticks. */
  function MatchDoubleBacktick(s: string): (r: Option<Match>)
    ensures r.Some? ==> 0 < r.value.len <= |s| && s[0] == '`'
    ensures r.Some? ==>
      var g, n := r.value.group, r.value.len;
      && n == |g| + 4 && s[..2] == "``" && s[n - 2..n] == "``"
      && g == s[2..n - 2] && |g| > 0 && NoSpace(g) && '`' !in g
  {
    if "``" <= s then
      var j := RunEnd(s, 2, NonSpaceExcept('`'));
      if 2 < j && j + 2 <= |s| && s[j..j + 2] == "``" then Some(Match(s[2..j], j + 2)) else None
    else None
  }

  /** `re.match('```(\S+)', s)`: three backticks, then a run of `\S` up to the end or white space. */
  function MatchFence(s: string): (r: Option<Match>)
    ensures r.Some? ==> 0 < r.value.len <= |s| && s[0] == '`'
    ensures r.Some? ==>
      var g, n := r.value.group, r.value.len;
      && n == |g| + 3 && s[..3] == "```"
      && g == s[3..n] && |g| > 0 && NoSpace(g)
      && (n == |s| || IsSpace(s[n]))
  {
    if "```" <= s then
      var j := RunEnd(s, 3, NonSpace);
      if 3 < j then Some(Match(s[3..j], j)) else None
    else None
  }

  /**
   * The shape of `\s*\{#([^\s}]+)\}` at the start of `u`: white space up to `a`,
   * `{#`, a run of `[^\s}]` up to `q`, and `}` at `q`.
   */
  predicate AnchorShape(u: string, a: nat, q: nat) {
    && a + 2 < q < |u|
    && AllSpace(u[..a]) && u[a..a + 2] == "{#"
    && NoSpace(u[a + 2..q]) && '}' !in u[a + 2..q] && u[q] == '}'
  }

  /** `re.match('\s*\{#([^\s}]+)\}', s)`: a match has the shape above, and the group is the run. */
  function MatchInlineAnchor(s: string): (r: Option<Match>)
    ensures r.Some? ==> 0 < r.value.len <= |s|
    ensures r.Some? ==>
      var g, n := r.value.group, r.value.len;
      && n >= |g| + 3 && AnchorShape(s, n - |g| - 3, n - 1) && g == s[n - 1 - |g|..n - 1]
  {
    var a := RunEnd(s, 0, Space);
    if a + 2 <= |s| && s[a..a + 2] == "{#" then
      var q := RunEnd(s, a + 2, NonSpaceExcept('}'));
      if a + 2 < q < |s| && s[q] == '}' then Some(Match(s[a + 2..q], q + 1)) else None
    else None
  }

  /** What `re.match` of one compiled pattern finds at the start of a string; never an empty match. */
  type Matcher = m: string -> Option<Match> | forall s :: m(s).Some? ==> 0 < m(s).value.len <= |s|
    witness (s: string) => None

  function Keyword(kw: string): Matcher {
    s => MatchKeyword(kw, s)
  }

  const DoubleBackticks: Matcher := MatchDoubleBacktick
  const Fence: Matcher := MatchFence
  const InlineAnchor: Matcher := MatchInlineAnchor

  /**
   * `.*?` followed by the pattern `m`: the first position from `k`, with no line
   * break before it, at which `m` matches.
   */
  function LazyFind(m: Matcher, rest: string, k: nat): (r: Option<(nat, Match)>)
    requires k <= |rest|
    ensures r.Some? ==> k <= r.value.0 <= |rest|
    decreases |rest| - k
  {
    match m(rest[k..])
    case Some(x) => Some((k, x))
    case None => if k < |rest| && rest[k] != '\n' then LazyFind(m, rest, k + 1) else None
  }

  /** What `LazyFind` finds is the first position, with no line break before it, at which `m` matches. */
  lemma {:induction false} LazyFindFirst(m: Matcher, rest: string, k: nat, p: nat, x: Match)
    requires k <= |rest| && LazyFind(m, rest, k) == Some((p, x))
    ensures '\n' !in rest[k..p] && m(rest[p..]) == Some(x)
    ensures forall y :: k <= y < p ==> m(rest[y..]).None?
    decreases |rest| - k
  {
    if p > k {
      LazyFindFirst(m, rest, k + 1, p, x);
      assert rest[k..p] == [rest[k]] + rest[k + 1..p];
    }
  }

  /** `LazyFind` finds nothing iff `m` matches at no position without a line break before it. */
  lemma {:induction false} LazyFindNone(m: Matcher, rest: string, k: nat)
    requires k <= |rest| && LazyFind(m, rest, k).None?
    ensures forall y :: k <= y <= |rest| && '\n' !in rest[k..y] ==> m(rest[y..]).None?
    decreases |rest| - k
  {
    if k < |rest| && rest[k] != '\n' {
      LazyFindNone(m, rest, k + 1);
      forall y | k + 1 <= y <= |rest| && '\n' !in rest[k..y] ensures '\n' !in rest[k + 1..y] {
        assert rest[k + 1..y] == rest[k..y][1..];
      }
    } else {
      forall y | k < y <= |rest| ensures '\n' in rest[k..y] {
        assert rest[k..y][0] == rest[k];
      }
    }
  }

  /** A first position on the line at which `m` matches is what `LazyFind` finds. */
  lemma {:induction false} LazyFindAt(m: Matcher, rest: string, k: nat, p: nat, x: Match)
    requires k <= p <= |rest| && '\n' !in rest[k..p] && m(rest[p..]) == Some(x)
    requires forall y :: k <= y < p ==> m(rest[y..]).None?
    ensures LazyFind(m, rest, k) == Some((p, x))
    decreases p - k
  {
    if k < p {
      assert rest[k] == rest[k..p][0];
      assert rest[k + 1..p] == rest[k..p][1..];
      LazyFindAt(m, rest, k + 1, p, x);
    }
  }

  /** No match starts inside text `h` that lacks the first character `c` of every match of `m`. */
  lemma NoLeadNoMatch(m: Matcher, c: char, h: string, rest: string)
    requires forall s :: m(s).Some? ==> |s| > 0 && s[0] == c
    requires c !in h
    ensures forall i :: 0 <= i < |h| ==> m((h + rest)[i..]).None?
  {
    forall i | 0 <= i < |h| ensures m((h + rest)[i..]).None? {
      assert (h + rest)[i..][0] == h[i];
    }
  }

  lemma NoAtNoKeyword(kw: string, h: string, rest: string)
    requires |kw| > 0 && kw[0] !in h
    ensures forall i :: 0 <= i < |h| ==> Keyword(kw)((h + rest)[i..]).None?
  {
    NoLeadNoMatch(Keyword(kw), kw[0], h, rest);
  }

  lemma NoBacktickNoFence(h: string, rest: string)
    requires '`' !in h
    ensures forall i :: 0 <= i < |h| ==> Fence((h + rest)[i..]).None?
  {
    NoLeadNoMatch(Fence, '`', h, rest);
  }

  lemma NoBacktickNoDoubleBacktick(h: string, rest: string)
    requires '`' !in h
    ensures forall i :: 0 <= i < |h| ==> DoubleBackticks((h + rest)[i..]).None?
  {
    NoLeadNoMatch(DoubleBackticks, '`', h, rest);
  }

  /** An inline anchor needs its `{`: a text without one holds no anchor. */
  lemma NoBraceNoAnchor(s: string)
    requires '{' !in s
    ensures forall i :: 0 <= i < |s| ==> InlineAnchor(s[i..]).None?
  {
    forall i | 0 <= i < |s| ensures MatchInlineAnchor(s[i..]).None? {
      var a := RunEnd(s[i..], 0, Space);
      if a + 2 <= |s[i..]| { assert s[i..][a] == s[i + a]; }
    }
  }

  /** The leading `\s*` of an anchor stops at a character that is not white space, so a `{` must come before it. */
  lemma NoAnchorBefore(u: string, p: nat)
    requires p < |u| && !IsSpace(u[p])
    requires '{' !in u[..p + 1]
    ensures InlineAnchor(u).None?
  {
    var a := RunEnd(u, 0, Space);
    assert a <= p && u[a] == u[..p + 1][a];
  }

  /** No anchor starts at position `i` of `h`, when `h` holds no `{` and does not end in white space. */
  lemma NoAnchorAt(h: string, rest: string, i: nat)
    requires '{' !in h && i < |h| && !IsSpace(h[|h| - 1])
    ensures InlineAnchor((h + rest)[i..]).None?
  {
    var u := (h + rest)[i..];
    var p := |h| - 1 - i;
    assert u[..p + 1] == h[i..];
    assert u[p] == h[|h| - 1];
    NoAnchorBefore(u, p);
  }

  /**
   * No anchor starts inside text `h` that holds no `{` and does not end in white
   * space, whatever follows it: the leading `\s*` cannot run past `h`.
   */
  lemma NoAnchorInside(h: string, rest: string)
    requires '{' !in h
    requires |h| == 0 || !IsSpace(h[|h| - 1])
    ensures forall i :: 0 <= i < |h| ==> InlineAnchor((h + rest)[i..]).None?
  {
    forall i | 0 <= i < |h| ensures InlineAnchor((h + rest)[i..]).None? {
      NoAnchorAt(h, rest, i);
    }
  }

  /** `kw name` followed by the end, a space or `)`: the group is `name`. */
  lemma KeywordMatch(kw: string, name: string, t: string)
    requires |name| > 0 && NoSpace(name) && ')' !in name
    requires |t| == 0 || IsSpace(t[0]) || t[0] == ')'
    ensures MatchKeyword(kw, kw + " " + name + t) == Some(Match(name, |kw| + 1 + |name|))
  {
    var s := kw + " " + name + t;
    Parts(kw, " ", name, t);
    var j, k := |kw| + 1, |kw| + 1 + |name|;
    assert s[|kw|] == ' ';
    assert s[j..k] == name;
    assert k == |s| || s[k] == t[0];
    KeywordShapeMatch(kw, s, j, k);
  }

  /** `kw`, white space up to `j`, a run of `[^\s)]` up to `k`, and then the end, white space or `)`. */
  lemma KeywordShapeMatch(kw: string, s: string, j: nat, k: nat)
    requires kw <= s && |kw| < j < k <= |s|
    requires AllSpace(s[|kw|..j]) && NoSpace(s[j..k]) && ')' !in s[j..k]
    requires k == |s| || IsSpace(s[k]) || s[k] == ')'
    ensures MatchKeyword(kw, s) == Some(Match(s[j..k], k))
  {
    forall x | |kw| <= x < j ensures InClass(s[x], Space) {
      assert s[x] == s[|kw|..j][x - |kw|];
    }
    forall x | j <= x < k ensures InClass(s[x], NonSpaceExcept(')')) {
      assert s[x] == s[j..k][x - j];
    }
    assert s[j] == s[j..k][0];
    RunEndIs(s, |kw|, Space, j);
    RunEndIs(s, j, NonSpaceExcept(')'), k);
  }

  /** ``` followed by a language name and then the end or white space: the group is the name. */
  lemma FenceMatch(lang: string, t: string)
    requires |lang| > 0 && NoSpace(lang)
    requires |t| == 0 || IsSpace(t[0])
    ensures Fence("```" + lang + t) == Some(Match(lang, 3 + |lang|))
  {
    var s := "```" + lang + t;
    assert s[..3] == "```";
    forall x | 3 <= x < 3 + |lang| ensures InClass(s[x], NonSpace) {
      assert s[x] == lang[x - 3];
    }
    RunEndIs(s, 3, NonSpace, 3 + |lang|);
    assert s[3..3 + |lang|] == lang;
  }

  /** ` {#id}`: one space, then the anchor; the group is `id`. */
  lemma AnchorMatch(id: string, t: string)
    requires |id| > 0 && NoSpace(id) && '}' !in id
    ensures MatchInlineAnchor(" {#" + id + "}" + t) == Some(Match(id, 4 + |id|))
  {
    var open := " {#";
    var s := open + id + "}" + t;
    var q := 3 + |id|;
    assert s[0] == ' ' && s[1] == '{' && s[2] == '#' && s[q] == '}';
    assert s[1..3] == "{#";
    forall x | 3 <= x < q ensures InClass(s[x], NonSpaceExcept('}')) {
      assert s[x] == id[x - 3];
    }
    RunEndIs(s, 0, Space, 1);
    RunEndIs(s, 3, NonSpaceExcept('}'), q);
    assert s[3..q] == id;
  }

  /** Text of the anchor's shape matches, with the run as the group. */
  lemma AnchorShapeMatch(u: string, a: nat, q: nat)
    requires AnchorShape(u, a, q)
    ensures MatchInlineAnchor(u) == Some(Match(u[a + 2..q], q + 1))
  {
    forall x | 0 <= x < a ensures InClass(u[x], Space) {
      assert u[x] == u[..a][x];
    }
    forall x | a + 2 <= x < q ensures InClass(u[x], NonSpaceExcept('}')) {
      assert u[x] == u[a + 2..q][x - a - 2];
    }
    assert u[a] == '{';
    RunEndIs(u, 0, Space, a);
    RunEndIs(u, a + 2, NonSpaceExcept('}'), q);
  }

  /** An anchor shape depends only on the text up to its closing `}`. */
  lemma AnchorShapePrefix(u: string, v: string, a: nat, q: nat)
    requires AnchorShape(u, a, q) && q < |v| && u[..q + 1] == v[..q + 1]
    ensures AnchorShape(v, a, q) && v[a + 2..q] == u[a + 2..q]
  {
    assert u[..a] == u[..q + 1][..a] && v[..a] == v[..q + 1][..a];
    assert u[a..a + 2] == u[..q + 1][a..a + 2] && v[a..a + 2] == v[..q + 1][a..a + 2];
    assert u[a + 2..q] == u[..q + 1][a + 2..q] && v[a + 2..q] == v[..q + 1][a + 2..q];
    assert u[q] == u[..q + 1][q] && v[q] == v[..q + 1][q];
  }

  /** An anchor match that ends within `p` is there whatever follows `p`. */
  lemma AnchorWithinPrefix(p: string, y: string, z: string)
    requires MatchInlineAnchor(p + y).Some? && MatchInlineAnchor(p + y).value.len <= |p|
    ensures MatchInlineAnchor(p + z) == MatchInlineAnchor(p + y)
  {
    var g, n := MatchInlineAnchor(p + y).value.group, MatchInlineAnchor(p + y).value.len;
    var a, q := n - |g| - 3, n - 1;
    assert (p + y)[..q + 1] == p[..q + 1] == (p + z)[..q + 1];
    AnchorShapePrefix(p + y, p + z, a, q);
    AnchorShapeMatch(p + z, a, q);
  }

  /**
   * After text that ends in a character other than white space, an anchor match
   * cannot reach into a tail that is empty or starts with white space.
   */
  lemma AnchorEndsInside(p: string, y: string)
    requires |p| > 0 && !IsSpace(p[|p| - 1]) && (|y| == 0 || IsSpace(y[0]))
    requires MatchInlineAnchor(p + y).Some?
    ensures MatchInlineAnchor(p + y).value.len <= |p|
  {
    var u := p + y;
    var a := RunEnd(u, 0, Space);
    assert u[|p| - 1] == p[|p| - 1];
    assert a < |p|;
    assert u[a + 1] == u[a..a + 2][1] == '#';
    if |y| > 0 {
      assert u[|p|] == y[0];
    }
  }

  /**
   * Anchors starting inside `p`, which ends in a character other than white space,
   * are the same whichever empty or white-space-led tail follows.
   */
  lemma AnchorIgnoresSpacedTail(p: string, y: string, z: string)
    requires |p| > 0 && !IsSpace(p[|p| - 1])
    requires |y| == 0 || IsSpace(y[0])
    ensures MatchInlineAnchor(p + y).Some? ==> MatchInlineAnchor(p + z) == MatchInlineAnchor(p + y)
  {
    if MatchInlineAnchor(p + y).Some? {
      AnchorEndsInside(p, y);
      AnchorWithinPrefix(p, y, z);
    }
  }

  /** The four parts of `a + b + c + d` are where they should be. */
  lemma Parts(a: string, b: string, c: string, d: string)
    ensures (a + b + c + d)[..|a|] == a
    ensures (a + b + c + d)[|a|..|a| + |b|] == b
    ensures (a + b + c + d)[|a| + |b|..|a| + |b| + |c|] == c
    ensures forall x :: |a| <= x < |a| + |b| ==> (a + b + c + d)[x] == b[x - |a|]
  {
  }

  /** Two backticks, a run of `[^\s`]` ending at `j`, and two more backticks. */
  lemma DoubleBacktickAt(s: string, j: nat)
    requires 2 < j && j + 2 <= |s| && s[..2] == "``" && s[j..j + 2] == "``"
    requires forall x :: 2 <= x < j ==> InClass(s[x], NonSpaceExcept('`'))
    ensures MatchDoubleBacktick(s) == Some(Match(s[2..j], j + 2))
  {
    assert s[j] == s[j..j + 2][0];
    RunEndIs(s, 2, NonSpaceExcept('`'), j);
  }

  /** ``name`` with nothing special inside: the group is `name`. */
  lemma DoubleBacktickMatch(name: string, t: string)
    requires |name| > 0 && NoSpace(name) && '`' !in name
    ensures DoubleBackticks("``" + name + "``" + t) == Some(Match(name, 4 + |name|))
  {
    var tick := "``";
    Parts(tick, name, tick, t);
    DoubleBacktickAt(tick + name + tick + t, 2 + |name|);
  }

  /**
   * `re.sub(m, f, s)` where the replacement `f` may raise: every match of the
   * left-to-right scan is replaced; the first replacement that raises aborts.
   */
  function SubAll(m: Matcher, s: string, f: string -> Result<string>): Result<string>
    decreases |s|
  {
    if |s| == 0 then Success("")
    else match m(s)
      case Some(hit) =>
        var r :- f(hit.group);
        var rest :- SubAll(m, s[hit.len..], f);
        Success(r + rest)
      case None =>
        var rest :- SubAll(m, s[1..], f);
        Success([s[0]] + rest)
  }

  /** The groups of the matches the scan of `re.sub` finds, in order. */
  function Groups(m: Matcher, s: string): seq<string>
    decreases |s|
  {
    if |s| == 0 then []
    else match m(s)
      case Some(hit) => [hit.group] + Groups(m, s[hit.len..])
      case None => Groups(m, s[1..])
  }

  function Lift(f: string -> string): string -> Result<string> {
    g => Success(f(g))
  }

  /** `re.sub(m, f, s)` with a replacement that cannot raise. */
  function Rewrite(m: Matcher, s: string, f: string -> string): string
    decreases |s|
  {
    if |s| == 0 then ""
    else match m(s)
      case Some(hit) => f(hit.group) + Rewrite(m, s[hit.len..], f)
      case None => [s[0]] + Rewrite(m, s[1..], f)
  }

  /** A replacement that cannot raise never makes the scan fail, and the scan then yields `Rewrite`. */
  lemma {:induction false} RewriteIsSubAll(m: Matcher, s: string, f: string -> string)
    ensures SubAll(m, s, Lift(f)) == Success(Rewrite(m, s, f))
    decreases |s|
  {
    if |s| > 0 {
      match m(s)
      case Some(hit) => RewriteIsSubAll(m, s[hit.len..], f);
      case None => RewriteIsSubAll(m, s[1..], f);
    }
  }

  /** Text in which no match starts is copied unchanged, and the rewrite resumes after it. */
  lemma RewriteCopies(m: Matcher, s: string, k: nat, n: nat, f: string -> string)
    requires k <= n <= |s|
    requires forall i :: k <= i < n ==> m(s[i..]).None?
    ensures Rewrite(m, s[k..], f) == s[k..n] + Rewrite(m, s[n..], f)
  {
    SubAllCopies(m, s, k, n, Lift(f));
    RewriteIsSubAll(m, s[k..], f);
    RewriteIsSubAll(m, s[n..], f);
  }

  lemma RewriteSkips(m: Matcher, a: string, b: string, f: string -> string)
    requires forall i :: 0 <= i < |a| ==> m((a + b)[i..]).None?
    ensures Rewrite(m, a + b, f) == a + Rewrite(m, b, f)
  {
    var s := a + b;
    RewriteCopies(m, s, 0, |a|, f);
    assert s[0..] == s && s[|a|..] == b && s[0..|a|] == a;
  }

  /** A text in which no match starts is left as it is. */
  lemma RewriteUnchanged(m: Matcher, s: string, f: string -> string)
    requires forall i :: 0 <= i < |s| ==> m(s[i..]).None?
    ensures Rewrite(m, s, f) == s
  {
    RewriteCopies(m, s, 0, |s|, f);
    assert s[0..] == s[0..|s|] == s;
    assert s[|s|..] == [];
  }

  /** A match `mid` at the start, then text in which no match starts. */
  lemma RewriteFirst(m: Matcher, mid: string, t: string, g: string, f: string -> string)
    requires m(mid + t) == Some(Match(g, |mid|))
    requires forall i :: 0 <= i < |t| ==> m(t[i..]).None?
    ensures Rewrite(m, mid + t, f) == f(g) + t
  {
    assert (mid + t)[|mid|..] == t;
    RewriteUnchanged(m, t, f);
  }

  /**
   * One match `mid` between two texts in which no match starts: only the match is
   * replaced, by `f` of its group.
   */
  lemma RewriteOne(m: Matcher, h: string, mid: string, t: string, g: string, f: string -> string)
    requires forall i :: 0 <= i < |h| ==> m((h + mid + t)[i..]).None?
    requires m(mid + t) == Some(Match(g, |mid|))
    requires forall i :: 0 <= i < |t| ==> m(t[i..]).None?
    ensures Rewrite(m, h + mid + t, f) == h + f(g) + t
  {
    var s := mid + t;
    assert h + mid + t == h + s;
    RewriteSkips(m, h, s, f);
    RewriteFirst(m, mid, t, g, f);
    assert h + (f(g) + t) == h + f(g) + t;
  }

  /**
   * A substitution succeeds exactly when every replacement of the scan succeeds,
   * and otherwise fails with the error of the first replacement that fails.
   */
  lemma {:induction false} SubAllFailsAtFirstBadGroup(m: Matcher, s: string, f: string -> Result<string>)
    ensures SubAll(m, s, f).Success? <==> forall g :: g in Groups(m, s) ==> f(g).Success?
    ensures SubAll(m, s, f).Failure? ==>
      exists i :: 0 <= i < |Groups(m, s)| && f(Groups(m, s)[i]).Failure?
        && SubAll(m, s, f).error == f(Groups(m, s)[i]).error
        && forall j :: 0 <= j < i ==> f(Groups(m, s)[j]).Success?
    decreases |s|
  {
    if |s| > 0 {
      match m(s)
      case Some(hit) =>
        SubAllFailsAtFirstBadGroup(m, s[hit.len..], f);
        var gs := Groups(m, s[hit.len..]);
        assert Groups(m, s) == [hit.group] + gs;
        if f(hit.group).Success? && SubAll(m, s[hit.len..], f).Failure? {
          var i :| 0 <= i < |gs| && f(gs[i]).Failure?
            && SubAll(m, s[hit.len..], f).error == f(gs[i]).error
            && forall j :: 0 <= j < i ==> f(gs[j]).Success?;
          assert Groups(m, s)[i + 1] == gs[i];
          forall j | 0 <= j < i + 1 ensures f(Groups(m, s)[j]).Success? {
            if j > 0 { assert Groups(m, s)[j] == gs[j - 1]; }
          }
        } else if f(hit.group).Failure? {
          assert Groups(m, s)[0] == hit.group;
        }
      case None =>
        SubAllFailsAtFirstBadGroup(m, s[1..], f);
    }
  }

  /** The result of the scan with `x` copied in front of its text. */
  function Prepend(x: string, r: Result<string>): Result<string> {
    if r.Success? then Success(x + r.value) else r
  }

  lemma PrependTwice(x: string, y: string, r: Result<string>)
    ensures Prepend(x, Prepend(y, r)) == Prepend(x + y, r)
  {
    if r.Success? {
      assert x + (y + r.value) == (x + y) + r.value;
    }
  }

  lemma PrependNothing(r: Result<string>)
    ensures Prepend([], r) == r
  {
    if r.Success? {
      assert [] + r.value == r.value;
    }
  }

  /** The replacement text, then the scan of the rest; the first failure wins. */
  function Then(r: Result<string>, rest: Result<string>): Result<string> {
    if r.Failure? then r else Prepend(r.value, rest)
  }

  /** One step of the scan where a match starts. */
  lemma SubAllHit(m: Matcher, s: string, f: string -> Result<string>)
    requires |s| > 0 && m(s).Some?
    ensures SubAll(m, s, f) == Then(f(m(s).value.group), SubAll(m, s[m(s).value.len..], f))
  {
  }

  /** One step of the scan where no match starts. */
  lemma SubAllStep(m: Matcher, s: string, f: string -> Result<string>)
    requires |s| > 0 && m(s).None?
    ensures SubAll(m, s, f) == Prepend([s[0]], SubAll(m, s[1..], f))
  {
  }

  /** Text in which no match starts is copied unchanged, and the scan resumes after it. */
  lemma {:induction false} SubAllCopies(m: Matcher, s: string, k: nat, n: nat, f: string -> Result<string>)
    requires k <= n <= |s|
    requires forall i :: k <= i < n ==> m(s[i..]).None?
    ensures SubAll(m, s[k..], f) == Prepend(s[k..n], SubAll(m, s[n..], f))
    decreases n - k
  {
    if k < n {
      var r := SubAll(m, s[n..], f);
      var u := s[k..];
      assert m(u).None? && u[0] == s[k] && u[1..] == s[k + 1..];
      SubAllStep(m, u, f);
      SubAllCopies(m, s, k + 1, n, f);
      PrependTwice([s[k]], s[k + 1..n], r);
      assert [s[k]] + s[k + 1..n] == s[k..n];
    } else {
      PrependNothing(SubAll(m, s[n..], f));
      assert s[k..n] == [];
    }
  }

  lemma SubAllSkips(m: Matcher, a: string, b: string, f: string -> Result<string>)
    requires forall i :: 0 <= i < |a| ==> m((a + b)[i..]).None?
    ensures SubAll(m, a + b, f) == Prepend(a, SubAll(m, b, f))
  {
    var s := a + b;
    SubAllCopies(m, s, 0, |a|, f);
    assert s[0..] == s && s[|a|..] == b && s[0..|a|] == a;
  }

  /** Text in which no match starts comes through the scan unchanged. */
  lemma SubAllUnchanged(m: Matcher, s: string, f: string -> Result<string>)
    requires forall i :: 0 <= i < |s| ==> m(s[i..]).None?
    ensures SubAll(m, s, f) == Success(s)
  {
    SubAllCopies(m, s, 0, |s|, f);
    assert s[0..] == s && s[0..|s|] == s && s[|s|..] == [];
    assert s + [] == s;
  }

  /** A match `mid` at the start, then text in which no match starts. */
  lemma SubAllFirst(m: Matcher, mid: string, t: string, g: string, f: string -> Result<string>, v: string)
    requires m(mid + t) == Some(Match(g, |mid|))
    requires forall i :: 0 <= i < |t| ==> m(t[i..]).None?
    requires f(g) == Success(v)
    ensures SubAll(m, mid + t, f) == Success(v + t)
  {
    assert (mid + t)[|mid|..] == t;
    SubAllUnchanged(m, t, f);
    SubAllHit(m, mid + t, f);
  }

  /** One match between text where none starts: the scan replaces exactly that match. */
  lemma SubAllOne(m: Matcher, h: string, mid: string, t: string, g: string, f: string -> Result<string>, v: string)
    requires forall i :: 0 <= i < |h| ==> m((h + mid + t)[i..]).None?
    requires m(mid + t) == Some(Match(g, |mid|))
    requires forall i :: 0 <= i < |t| ==> m(t[i..]).None?
    requires f(g) == Success(v)
    ensures SubAll(m, h + mid + t, f) == Success(h + v + t)
  {
    var s := mid + t;
    assert h + mid + t == h + s;
    SubAllSkips(m, h, s, f);
    SubAllFirst(m, mid, t, g, f, v);
    assert h + (v + t) == h + v + t;
  }

  /** A match whose replacement raises, after text where none starts: the scan raises that error. */
  lemma SubAllFailsHere(m: Matcher, h: string, s: string, g: string, f: string -> Result<string>)
    requires forall i :: 0 <= i < |h| ==> m((h + s)[i..]).None?
    requires |s| > 0 && m(s).Some? && m(s).value.group == g
    requires f(g).Failure?
    ensures SubAll(m, h + s, f) == Failure(f(g).error)
  {
    SubAllSkips(m, h, s, f);
    SubAllHit(m, s, f);
  }
}
