/** The handful of Python `str` operations the scripts use, on `seq<char>`. */
module Text {
  import opened Base

  /**
   * Python's `\s` and `str.isspace()` on ASCII: space, `\t`, `\n`, `\v`, `\f`, `\r`
   * and the four separators `\x1c` to `\x1f`.
   */
  predicate IsSpace(c: char) {
    c == ' ' || c == '\t' || c == '\n' || c == '\r' || c == '\U{000B}' || c == '\U{000C}'
    || '\U{001C}' <= c <= '\U{001F}'
  }

  predicate NoSpace(s: string) {
    forall i :: 0 <= i < |s| ==> !IsSpace(s[i])
  }

  predicate AllSpace(s: string) {
    forall i :: 0 <= i < |s| ==> IsSpace(s[i])
  }

  /** `s.endswith(p)` */
  predicate EndsWith(s: string, p: string) {
    |p| <= |s| && s[|s| - |p|..] == p
  }

  /** `sub in s` */
  predicate Contains(s: string, sub: string)
    decreases |s|
  {
    sub <= s || (|s| > 0 && Contains(s[1..], sub))
  }

  /** `s.find(sep)`, as an option. */
  function FirstIndex(s: string, sep: string): (r: Option<nat>)
    ensures r.Some? ==> r.value + |sep| <= |s| && s[r.value..r.value + |sep|] == sep
    ensures r.None? ==> !Contains(s, sep)
    decreases |s|
  {
    if sep <= s then Some(0)
    else if |s| == 0 then None
    else match FirstIndex(s[1..], sep)
      case None => None
      case Some(i) => Some(i + 1)
  }

  /** `s.split(sep)[-1]`: the piece after the last separator that a left-to-right split finds. */
  function LastPart(s: string, sep: string): (r: string)
    requires |sep| > 0
    ensures EndsWith(s, r)
    ensures !Contains(r, sep)
    decreases |s|
  {
    match FirstIndex(s, sep)
    case None => s
    case Some(i) =>
      var t := s[i + |sep|..];
      var r := LastPart(t, sep);
      assert t[|t| - |r|..] == s[|s| - |r|..];
      r
  }

  /** `s.replace(from, to)`: non-overlapping occurrences, left to right. */
  function Replace(s: string, from: string, to: string): (r: string)
    requires |from| > 0
    ensures !Contains(s, from) ==> r == s
    ensures |from| == 1 && from[0] !in to ==> from[0] !in r
    decreases |s|
  {
    if |s| == 0 then ""
    else if from <= s then to + Replace(s[|from|..], from, to)
    else [s[0]] + Replace(s[1..], from, to)
  }

  /** `s.rstrip()` */
  function RStrip(s: string): (r: string)
    ensures r <= s
    ensures AllSpace(s[|r|..])
    ensures |r| > 0 ==> !IsSpace(r[|r| - 1])
  {
    if |s| > 0 && IsSpace(s[|s| - 1]) then RStrip(s[..|s| - 1]) else s
  }

  /** `s.lstrip()` */
  function LStrip(s: string): (r: string)
    ensures EndsWith(s, r)
    ensures AllSpace(s[..|s| - |r|])
    ensures |r| > 0 ==> !IsSpace(r[0])
  {
    if |s| > 0 && IsSpace(s[0]) then LStrip(s[1..]) else s
  }

  /** `s.strip()` */
  function Strip(s: string): string {
    LStrip(RStrip(s))
  }

  function Repeat(c: char, n: nat): string {
    seq(n, _ => c)
  }

  predicate IsDigit(c: char) {
    '0' <= c <= '9'
  }

  function Digit(d: nat): char
    requires d < 10
  {
    "0123456789"[d]
  }

  /** `'%d' % n` for a non-negative `n`. */
  function NatToString(n: nat): (r: string)
    ensures |r| > 0
    ensures forall i :: 0 <= i < |r| ==> IsDigit(r[i])
  {
    if n < 10 then [Digit(n)] else NatToString(n / 10) + [Digit(n % 10)]
  }

  lemma {:induction false} NatToStringInjective(n: nat, m: nat)
    requires NatToString(n) == NatToString(m)
    ensures n == m
  {
    if n < 10 && m < 10 {
      assert "0123456789"[n] == "0123456789"[m];
    } else if n >= 10 && m >= 10 {
      var a, b := NatToString(n / 10), NatToString(m / 10);
      assert NatToString(n) == a + [Digit(n % 10)];
      assert NatToString(m) == b + [Digit(m % 10)];
      assert a == NatToString(n)[..|a|];
      assert |a| == |b|;
      assert b == NatToString(m)[..|b|];
      NatToStringInjective(n / 10, m / 10);
      assert Digit(n % 10) == Digit(m % 10);
      assert "0123456789"[n % 10] == "0123456789"[m % 10];
    }
  }
}

/** Facts about `find` and `split` used by the rest of the model. */
module TextProperties {
  import opened Base
  import opened Text

  lemma {:induction false} ContainsAt(s: string, sub: string, i: nat)
    requires i + |sub| <= |s| && s[i..i + |sub|] == sub
    ensures Contains(s, sub)
    decreases i
  {
    if i > 0 {
      assert s[1..][i - 1..i - 1 + |sub|] == s[i..i + |sub|];
      ContainsAt(s[1..], sub, i - 1);
    }
  }

  /** Without the separator, `split(sep)[-1]` is the whole text. */
  lemma LastPartWithoutSep(s: string, sep: string)
    requires |sep| > 0 && !Contains(s, sep)
    ensures LastPart(s, sep) == s
  {
    if FirstIndex(s, sep).Some? {
      ContainsAt(s, sep, FirstIndex(s, sep).value);
    }
  }

  /** A separator whose first character does not occur before it is the first one found. */
  lemma {:induction false} FirstIndexAfter(x: string, sep: string, rest: string)
    requires |sep| > 0 && sep[0] !in x
    ensures FirstIndex(x + sep + rest, sep) == Some(|x|)
    decreases |x|
  {
    var s := x + sep + rest;
    if |x| == 0 {
      assert s == sep + rest;
    } else {
      assert s[0] == x[0] != sep[0];
      assert s[1..] == x[1..] + sep + rest;
      FirstIndexAfter(x[1..], sep, rest);
    }
  }

  /** The first separator found is at or before any separator. */
  lemma {:induction false} FirstIndexAtMost(s: string, sep: string, k: nat)
    requires k + |sep| <= |s| && s[k..k + |sep|] == sep
    ensures FirstIndex(s, sep).Some? && FirstIndex(s, sep).value <= k
    decreases k
  {
    if k > 0 && !(sep <= s) {
      assert s[1..][k - 1..k - 1 + |sep|] == s[k..k + |sep|];
      FirstIndexAtMost(s[1..], sep, k - 1);
    }
  }

  /** `split(d)[-1]` of text ending in `d` and then text without `d` is that last text. */
  lemma {:induction false} LastPartAfterLast(a: string, d: char, c: string)
    requires d !in c
    ensures LastPart(a + [d] + c, [d]) == c
    decreases |a|
  {
    var s := a + [d] + c;
    assert s[|a|..|a| + 1] == [d];
    FirstIndexAtMost(s, [d], |a|);
    var i := FirstIndex(s, [d]).value;
    if i == |a| {
      assert s[i + 1..] == c;
      NoCharNoContains(c, d);
      LastPartWithoutSep(c, [d]);
    } else {
      assert s[i + 1..] == a[i + 1..] + [d] + c;
      LastPartAfterLast(a[i + 1..], d, c);
    }
  }

  lemma {:induction false} NoCharNoContains(s: string, d: char)
    requires d !in s
    ensures !Contains(s, [d])
    decreases |s|
  {
    if |s| > 0 {
      assert s[0] in s;
      assert s[..1] == [s[0]];
      assert forall k :: 0 <= k < |s| - 1 ==> s[1..][k] in s;
      NoCharNoContains(s[1..], d);
    }
  }

  lemma {:induction false} NoColonNoScope(s: string)
    requires ':' !in s
    ensures !Contains(s, "::")
    decreases |s|
  {
    if |s| > 0 {
      assert s[0] in s;
      assert forall k :: 0 <= k < |s| - 1 ==> s[1..][k] in s;
      NoColonNoScope(s[1..]);
    }
  }

  lemma {:induction false} NotInSuffix(s: string, r: string, sub: string)
    requires EndsWith(s, r) && !Contains(s, sub)
    ensures !Contains(r, sub)
    decreases |s|
  {
    if |s| > |r| {
      assert s[1..][|s| - 1 - |r|..] == s[|s| - |r|..];
      NotInSuffix(s[1..], r, sub);
    }
  }

  /**
   * `replace` copies text up to an occurrence whose first character does not occur
   * before it, writes `to` for the occurrence, and goes on after it. With the
   * ensures of `Replace` for text without an occurrence, this gives its value on
   * every text when `from` is one character.
   */
  lemma {:induction false} ReplaceAt(x: string, from: string, to: string, rest: string)
    requires |from| > 0 && from[0] !in x
    ensures Replace(x + (from + rest), from, to) == x + (to + Replace(rest, from, to))
    decreases |x|
  {
    if |x| == 0 {
      assert x + (from + rest) == from + rest;
      ReplaceHit(from, to, rest);
    } else {
      ConsSplit(x, from + rest);
      ReplaceSkip(x[0], x[1..] + (from + rest), from, to);
      ReplaceAt(x[1..], from, to, rest);
      ConsSplit(x, to + Replace(rest, from, to));
    }
  }

  lemma ConsSplit(x: string, tail: string)
    requires |x| > 0
    ensures x + tail == [x[0]] + (x[1..] + tail)
  {
  }

  lemma ReplaceHit(from: string, to: string, rest: string)
    requires |from| > 0
    ensures Replace(from + rest, from, to) == to + Replace(rest, from, to)
  {
    assert (from + rest)[|from|..] == rest;
  }

  lemma ReplaceSkip(c: char, t: string, from: string, to: string)
    requires |from| > 0 && c != from[0]
    ensures Replace([c] + t, from, to) == [c] + Replace(t, from, to)
  {
    assert ([c] + t)[1..] == t;
  }

  /** `p.q`, with no other dot, is spelled `p::q` by `replace('.', '::')`. */
  lemma DotBecomesScope(p: string, q: string)
    requires '.' !in p && '.' !in q
    ensures Replace(p + "." + q, ".", "::") == p + "::" + q
  {
    ReplaceAt(p, ".", "::", q);
    assert p + "." + q == p + ("." + q) && p + "::" + q == p + ("::" + q);
    assert "." == ['.'];
    NoCharNoContains(q, '.');
  }

  lemma SuffixOfSuffix(s: string, a: string, b: string)
    requires EndsWith(s, a) && EndsWith(a, b)
    ensures EndsWith(s, b)
  {
    assert s[|s| - |b|..] == a[|a| - |b|..];
  }
}
