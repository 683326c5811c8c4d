/** `matches` of RobotCommand: each stored rule line is split into its
    directive and its value, the value becomes a regular expression (`*` is
    rewritten to `.*`, `?` to `[?]`) that is searched for anywhere in the URL,
    and the last rule that is found decides. The regular expressions are
    modelled as token sequences over the fragment of Java's syntax these
    rewrites produce. */
module RobotMatcher {
  import opened JavaText
  import opened RobotParser

  // ---------------------------------------------------------------------------
  // Patterns

  /** A literal character, `.` (any one character) or `.*` (any run). */
  datatype Token = Lit(c: char) | AnyChar | AnyRun

  /** The characters Java's `.` does not match (no DOTALL flag). */
  predicate IsLineTerminator(c: char) {
    c == '\n' || c == '\r' || c == '\U{85}' || c == '\U{2028}' || c == '\U{2029}'
  }

  predicate NoTerminator(s: string) { forall i :: 0 <= i < |s| ==> !IsLineTerminator(s[i]) }

  /** Regular-expression syntax outside the modelled fragment. */
  predicate IsUnmodelledMeta(c: char) {
    || c == '\\' || c == '^' || c == '$' || c == '|' || c == '+'
    || c == '(' || c == ')' || c == '[' || c == ']' || c == '{' || c == '}'
  }

  predicate Translatable(v: string) { forall i :: 0 <= i < |v| ==> !IsUnmodelledMeta(v[i]) }

  function TokenOf(c: char): Token {
    if c == '*' then AnyRun else if c == '.' then AnyChar else Lit(c)
  }

  /** The pattern compiled from a rule value after the two rewrites: `*`
      becomes `.*`, `?` becomes the class `[?]`, a literal `?`. */
  function Compile(v: string): (p: seq<Token>)
    requires Translatable(v)
    ensures |p| == |v|
    ensures forall i {:trigger p[i]} :: 0 <= i < |v| ==>
      && (p[i] == AnyRun <==> v[i] == '*')
      && (p[i] == AnyChar <==> v[i] == '.')
      && (p[i].Lit? ==> p[i].c == v[i])
  {
    seq(|v|, i requires 0 <= i < |v| => TokenOf(v[i]))
  }

  /** The whole of `s` matches `p`. Without `*` a pattern matches only
      strings of its own length. */
  predicate Match(p: seq<Token>, s: string)
    ensures Match(p, s) && AnyRun !in p ==> |s| == |p|
    decreases |p|
  {
    if p == [] then s == []
    else
      match p[0]
      case Lit(c) => s != [] && s[0] == c && Match(p[1..], s[1..])
      case AnyChar => s != [] && !IsLineTerminator(s[0]) && Match(p[1..], s[1..])
      case AnyRun => exists k :: 0 <= k <= |s| && NoTerminator(s[..k]) && Match(p[1..], s[k..])
  }

  /** `Matcher.find`: some substring of `url` matches `p`; the search is not
      anchored at either end. */
  predicate Find(p: seq<Token>, url: string)
    ensures Match(p, url) ==> Find(p, url)
  {
    assert url[0..|url|] == url;
    exists i, j :: 0 <= i <= j <= |url| && Match(p, url[i..j])
  }

  /** The search is unanchored: a pattern found in a URL is found in every
      URL that contains it. */
  lemma FindExtends(p: seq<Token>, url: string, before: string, after: string)
    requires Find(p, url)
    ensures Find(p, before + url + after)
  {
    var i, j :| 0 <= i <= j <= |url| && Match(p, url[i..j]);
    var big := before + url + after;
    assert big[|before| + i..|before| + j] == url[i..j];
  }

  /** `s` splits at `k` into a piece matching `p` and a piece matching `q`. */
  predicate SplitsAt(p: seq<Token>, q: seq<Token>, s: string, k: int) {
    0 <= k <= |s| && Match(p, s[..k]) && Match(q, s[k..])
  }

  /** Matching a concatenation is matching its parts on consecutive pieces. */
  lemma {:induction false} MatchConcat(p: seq<Token>, q: seq<Token>, s: string)
    ensures Match(p + q, s) <==> exists k :: SplitsAt(p, q, s, k)
    decreases |p|, 1
  {
    if p == [] {
      assert p + q == q;
      if Match(q, s) { assert s[..0] == [] && s[0..] == s; assert SplitsAt(p, q, s, 0); }
    } else if p[0] == AnyRun {
      MatchConcatRun(p, q, s);
    } else {
      MatchConcatOne(p, q, s);
    }
  }

  lemma {:induction false} MatchConcatRun(p: seq<Token>, q: seq<Token>, s: string)
    requires p != [] && p[0] == AnyRun
    ensures Match(p + q, s) <==> exists k :: SplitsAt(p, q, s, k)
    decreases |p|, 0
  {
    assert (p + q)[0] == p[0] && (p + q)[1..] == p[1..] + q;
    if Match(p + q, s) {
      var j :| 0 <= j <= |s| && NoTerminator(s[..j]) && Match(p[1..] + q, s[j..]);
      MatchConcat(p[1..], q, s[j..]);
      var k' :| SplitsAt(p[1..], q, s[j..], k');
      var k := j + k';
      assert s[..k][..j] == s[..j] && s[..k][j..] == s[j..][..k'];
      assert s[k..] == s[j..][k'..];
      assert SplitsAt(p, q, s, k);
    }
    if exists k :: SplitsAt(p, q, s, k) {
      var k :| SplitsAt(p, q, s, k);
      var j :| 0 <= j <= |s[..k]| && NoTerminator(s[..k][..j]) && Match(p[1..], s[..k][j..]);
      assert s[..k][..j] == s[..j] && s[..k][j..] == s[j..][..k - j];
      assert s[k..] == s[j..][k - j..];
      assert SplitsAt(p[1..], q, s[j..], k - j);
      MatchConcat(p[1..], q, s[j..]);
    }
  }

  lemma {:induction false} MatchConcatOne(p: seq<Token>, q: seq<Token>, s: string)
    requires p != [] && p[0] != AnyRun
    ensures Match(p + q, s) <==> exists k :: SplitsAt(p, q, s, k)
    decreases |p|, 0
  {
    assert (p + q)[0] == p[0] && (p + q)[1..] == p[1..] + q;
    if Match(p + q, s) {
      MatchConcat(p[1..], q, s[1..]);
      var k' :| SplitsAt(p[1..], q, s[1..], k');
      assert s[..k' + 1][1..] == s[1..][..k'] && s[k' + 1..] == s[1..][k'..];
      assert SplitsAt(p, q, s, k' + 1);
    }
    if exists k :: SplitsAt(p, q, s, k) {
      var k :| SplitsAt(p, q, s, k);
      assert s[..k][1..] == s[1..][..k - 1] && s[k..] == s[1..][k - 1..];
      assert SplitsAt(p[1..], q, s[1..], k - 1);
      MatchConcat(p[1..], q, s[1..]);
    }
  }

  /** A value without `*` or `.` matches exactly itself. */
  lemma {:induction false} MatchLiteral(v: string, s: string)
    requires Translatable(v) && '*' !in v && '.' !in v
    ensures Match(Compile(v), s) <==> s == v
    decreases |v|
  {
    if v != [] {
      assert Compile(v)[0] == Lit(v[0]) && Compile(v)[1..] == Compile(v[1..]);
      if s != [] {
        MatchLiteral(v[1..], s[1..]);
        assert s == [s[0]] + s[1..] && v == [v[0]] + v[1..];
      }
    }
  }

  /** `v` occurs in `url` at index `i`. */
  predicate OccursAt(v: string, url: string, i: int) {
    0 <= i <= |url| - |v| && url[i..i + |v|] == v
  }

  /** A string occurs where it is placed. */
  lemma OccursInMiddle(before: string, v: string, after: string)
    ensures OccursAt(v, before + v + after, |before|)
  {
    assert (before + v + after)[|before|..|before| + |v|] == v;
  }

  /** An occurrence fixes each character of the URL it covers. */
  lemma OccursChar(v: string, url: string, i: int, n: nat)
    ensures OccursAt(v, url, i) && n < |v| ==> url[i + n] == v[n]
  {
    if OccursAt(v, url, i) && n < |v| {
      assert url[i..i + |v|][n] == url[i + n];
    }
  }

  /** So a literal value is found exactly when it occurs in the URL. */
  lemma FindLiteral(v: string, url: string)
    requires Translatable(v) && '*' !in v && '.' !in v
    ensures Find(Compile(v), url) <==> exists i :: OccursAt(v, url, i)
  {
    if Find(Compile(v), url) {
      var i, j :| 0 <= i <= j <= |url| && Match(Compile(v), url[i..j]);
      MatchLiteral(v, url[i..j]);
      assert OccursAt(v, url, i);
    }
    if exists i :: OccursAt(v, url, i) {
      var i :| OccursAt(v, url, i);
      MatchLiteral(v, url[i..i + |v|]);
    }
  }

  /** An empty value is found in every URL. */
  lemma FindEmpty(url: string)
    ensures Find(Compile(""), url)
  {
    assert Match(Compile(""), url[0..0]);
  }

  lemma CompileStar(v: string)
    requires Translatable(v)
    ensures Translatable(v + "*") && Compile(v + "*") == Compile(v) + [AnyRun]
  {
  }

  /** A trailing `*` changes nothing, since the search is not anchored. */
  lemma TrailingStarIsRedundant(v: string, url: string)
    requires Translatable(v)
    ensures Find(Compile(v + "*"), url) <==> Find(Compile(v), url)
  {
    CompileStar(v);
    if Find(Compile(v) + [AnyRun], url) {
      StarFoundWithout(Compile(v), url);
    }
    if Find(Compile(v), url) {
      FoundWithStar(Compile(v), url);
    }
  }

  lemma StarFoundWithout(p: seq<Token>, url: string)
    requires Find(p + [AnyRun], url)
    ensures Find(p, url)
  {
    var i, j :| 0 <= i <= j <= |url| && Match(p + [AnyRun], url[i..j]);
    MatchConcat(p, [AnyRun], url[i..j]);
    var k :| SplitsAt(p, [AnyRun], url[i..j], k);
    assert url[i..j][..k] == url[i..i + k];
  }

  lemma FoundWithStar(p: seq<Token>, url: string)
    requires Find(p, url)
    ensures Find(p + [AnyRun], url)
  {
    var i, j :| 0 <= i <= j <= |url| && Match(p, url[i..j]);
    MatchConcat(p, [AnyRun], url[i..j]);
    assert url[i..j][..j - i] == url[i..j];
    assert Match([AnyRun], url[i..j][j - i..]) by {
      assert url[i..j][j - i..][..0] == [];
    }
    assert SplitsAt(p, [AnyRun], url[i..j], j - i);
  }

  lemma CompileConcat(x: string, y: string)
    requires Translatable(x) && Translatable(y)
    ensures Translatable(x + y) && Compile(x + y) == Compile(x) + Compile(y)
  {
    assert Translatable(x + y) by {
      forall i | 0 <= i < |x + y| ensures !IsUnmodelledMeta((x + y)[i]) {
        if i < |x| { assert (x + y)[i] == x[i]; } else { assert (x + y)[i] == y[i - |x|]; }
      }
    }
  }

  /** A literal value followed by more pattern matches a string that starts
      with the value and goes on with a match of the rest. */
  lemma MatchLiteralThen(a: string, q: seq<Token>, s: string)
    requires Translatable(a) && '*' !in a && '.' !in a
    ensures Match(Compile(a) + q, s) <==> |a| <= |s| && s[..|a|] == a && Match(q, s[|a|..])
  {
    MatchConcat(Compile(a), q, s);
    if Match(Compile(a) + q, s) {
      var k :| SplitsAt(Compile(a), q, s, k);
      MatchLiteral(a, s[..k]);
    }
    if |a| <= |s| && s[..|a|] == a && Match(q, s[|a|..]) {
      MatchLiteral(a, s[..|a|]);
      assert SplitsAt(Compile(a), q, s, |a|);
    }
  }

  /** `*` then a literal value matches a string that ends with the value,
      with no line terminator before it. */
  lemma MatchRunThenLiteral(b: string, s: string)
    requires Translatable(b) && '*' !in b && '.' !in b
    ensures Match([AnyRun] + Compile(b), s) <==>
      |b| <= |s| && s[|s| - |b|..] == b && NoTerminator(s[..|s| - |b|])
  {
    if Match([AnyRun] + Compile(b), s) {
      RunThenLiteralMatched(b, s);
    }
    if |b| <= |s| && s[|s| - |b|..] == b && NoTerminator(s[..|s| - |b|]) {
      RunThenLiteralMatches(b, s);
    }
  }

  lemma RunThenLiteralMatched(b: string, s: string)
    requires Translatable(b) && '*' !in b && '.' !in b
    requires Match([AnyRun] + Compile(b), s)
    ensures |b| <= |s| && s[|s| - |b|..] == b && NoTerminator(s[..|s| - |b|])
  {
    var p := [AnyRun] + Compile(b);
    assert p != [] && p[0] == AnyRun && p[1..] == Compile(b);
    var k :| 0 <= k <= |s| && NoTerminator(s[..k]) && Match(Compile(b), s[k..]);
    MatchLiteral(b, s[k..]);
    assert |s| - k == |b|;
  }

  lemma RunThenLiteralMatches(b: string, s: string)
    requires Translatable(b) && '*' !in b && '.' !in b
    requires |b| <= |s| && s[|s| - |b|..] == b && NoTerminator(s[..|s| - |b|])
    ensures Match([AnyRun] + Compile(b), s)
  {
    var p := [AnyRun] + Compile(b);
    assert p != [] && p[0] == AnyRun && p[1..] == Compile(b);
    var k := |s| - |b|;
    MatchLiteral(b, s[k..]);
    assert 0 <= k <= |s| && NoTerminator(s[..k]) && Match(p[1..], s[k..]);
  }

  /** `.` then a literal value matches one character other than a line
      terminator followed by the value. */
  lemma MatchDotThenLiteral(b: string, s: string)
    requires Translatable(b) && '*' !in b && '.' !in b
    ensures Match([AnyChar] + Compile(b), s) <==> |s| >= 1 && !IsLineTerminator(s[0]) && s[1..] == b
  {
    var p := [AnyChar] + Compile(b);
    assert p[0] == AnyChar && p[1..] == Compile(b);
    if s != [] {
      MatchLiteral(b, s[1..]);
    }
  }

  /** An interior `*` matches any run: `a*b` is found exactly where `a`
      occurs and `b` occurs later, with no line terminator in between. */
  lemma InteriorStar(a: string, b: string, url: string)
    requires Translatable(a) && '*' !in a && '.' !in a
    requires Translatable(b) && '*' !in b && '.' !in b
    ensures Translatable(a + "*" + b)
    ensures Find(Compile(a + "*" + b), url) <==>
      exists i, j :: OccursAt(a, url, i) && OccursAt(b, url, j) && i + |a| <= j && NoTerminator(url[i + |a|..j])
  {
    CompileConcat(a, "*");
    CompileConcat(a + "*", b);
    var q := [AnyRun] + Compile(b);
    assert Compile(a + "*" + b) == Compile(a) + q;
    if Find(Compile(a + "*" + b), url) {
      var i, j :| 0 <= i <= j <= |url| && Match(Compile(a) + q, url[i..j]);
      StarFoundAt(a, b, url, i, j);
    }
    if exists i, j :: OccursAt(a, url, i) && OccursAt(b, url, j) && i + |a| <= j && NoTerminator(url[i + |a|..j]) {
      var i, j :| OccursAt(a, url, i) && OccursAt(b, url, j) && i + |a| <= j && NoTerminator(url[i + |a|..j]);
      StarOccursAt(a, b, url, i, j);
    }
  }

  lemma StarFoundAt(a: string, b: string, url: string, i: int, j: int)
    requires Translatable(a) && '*' !in a && '.' !in a
    requires Translatable(b) && '*' !in b && '.' !in b
    requires 0 <= i <= j <= |url| && Match(Compile(a) + ([AnyRun] + Compile(b)), url[i..j])
    ensures OccursAt(a, url, i) && OccursAt(b, url, j - |b|) && i + |a| <= j - |b|
    ensures NoTerminator(url[i + |a|..j - |b|])
  {
    StarSplit(a, b, url[i..j]);
    StarSlices(a, b, url, i, j);
  }

  /** What a match of `a*b` says about the matched string itself. */
  lemma StarSplit(a: string, b: string, s: string)
    requires Translatable(a) && '*' !in a && '.' !in a
    requires Translatable(b) && '*' !in b && '.' !in b
    requires Match(Compile(a) + ([AnyRun] + Compile(b)), s)
    ensures |a| + |b| <= |s| && s[..|a|] == a && s[|s| - |b|..] == b
    ensures NoTerminator(s[|a|..|s| - |b|])
  {
    LiteralPrefix(a, [AnyRun] + Compile(b), s);
    RunSuffixAt(b, s, |a|);
  }

  lemma LiteralPrefix(a: string, q: seq<Token>, s: string)
    requires Translatable(a) && '*' !in a && '.' !in a
    requires Match(Compile(a) + q, s)
    ensures |a| <= |s| && s[..|a|] == a && Match(q, s[|a|..])
  {
    MatchLiteralThen(a, q, s);
  }

  lemma RunSuffixAt(b: string, s: string, m: nat)
    requires Translatable(b) && '*' !in b && '.' !in b
    requires m <= |s| && Match([AnyRun] + Compile(b), s[m..])
    ensures m + |b| <= |s| && s[|s| - |b|..] == b && NoTerminator(s[m..|s| - |b|])
  {
    var t := s[m..];
    MatchRunThenLiteral(b, t);
    assert t[|t| - |b|..] == s[|s| - |b|..];
    assert t[..|t| - |b|] == s[m..|s| - |b|];
  }

  lemma StarSlices(a: string, b: string, url: string, i: int, j: int)
    requires 0 <= i <= j <= |url|
    requires |a| + |b| <= j - i && url[i..j][..|a|] == a && url[i..j][j - i - |b|..] == b
    requires NoTerminator(url[i..j][|a|..j - i - |b|])
    ensures OccursAt(a, url, i) && OccursAt(b, url, j - |b|) && i + |a| <= j - |b|
    ensures NoTerminator(url[i + |a|..j - |b|])
  {
    assert url[i..j][..|a|] == url[i..i + |a|];
    assert url[i..j][j - i - |b|..] == url[j - |b|..j];
    var mid := url[i..j][|a|..j - i - |b|];
    assert mid == url[i + |a|..j - |b|] by {
      forall k | 0 <= k < |mid| ensures mid[k] == url[i + |a| + k] {
      }
    }
  }

  lemma StarOccursAt(a: string, b: string, url: string, i: int, j: int)
    requires Translatable(a) && '*' !in a && '.' !in a
    requires Translatable(b) && '*' !in b && '.' !in b
    requires OccursAt(a, url, i) && OccursAt(b, url, j) && i + |a| <= j && NoTerminator(url[i + |a|..j])
    ensures Find(Compile(a) + ([AnyRun] + Compile(b)), url)
  {
    var s := url[i..j + |b|];
    var t := s[|a|..];
    assert s[..|a|] == a;
    assert t[|t| - |b|..] == b;
    assert t[..|t| - |b|] == url[i + |a|..j];
    MatchRunThenLiteral(b, t);
    MatchLiteralThen(a, [AnyRun] + Compile(b), s);
  }

  /** `.` matches any one character but a line terminator: `a.b` is found
      exactly where `a` is followed by such a character and then `b`. */
  lemma InteriorDot(a: string, b: string, url: string)
    requires Translatable(a) && '*' !in a && '.' !in a
    requires Translatable(b) && '*' !in b && '.' !in b
    ensures Translatable(a + "." + b)
    ensures Find(Compile(a + "." + b), url) <==>
      exists i :: OccursAt(a, url, i) && i + |a| < |url| && !IsLineTerminator(url[i + |a|]) && OccursAt(b, url, i + |a| + 1)
  {
    CompileConcat(a, ".");
    CompileConcat(a + ".", b);
    var q := [AnyChar] + Compile(b);
    assert Compile(a + "." + b) == Compile(a) + q;
    if Find(Compile(a + "." + b), url) {
      var i, j :| 0 <= i <= j <= |url| && Match(Compile(a) + q, url[i..j]);
      DotFoundAt(a, b, url, i, j);
    }
    if exists i :: OccursAt(a, url, i) && i + |a| < |url| && !IsLineTerminator(url[i + |a|]) && OccursAt(b, url, i + |a| + 1) {
      var i :| OccursAt(a, url, i) && i + |a| < |url| && !IsLineTerminator(url[i + |a|]) && OccursAt(b, url, i + |a| + 1);
      DotOccursAt(a, b, url, i);
    }
  }

  lemma DotFoundAt(a: string, b: string, url: string, i: int, j: int)
    requires Translatable(a) && '*' !in a && '.' !in a
    requires Translatable(b) && '*' !in b && '.' !in b
    requires 0 <= i <= j <= |url| && Match(Compile(a) + ([AnyChar] + Compile(b)), url[i..j])
    ensures OccursAt(a, url, i) && i + |a| < |url| && !IsLineTerminator(url[i + |a|]) && OccursAt(b, url, i + |a| + 1)
  {
    var s := url[i..j];
    MatchLiteralThen(a, [AnyChar] + Compile(b), s);
    MatchDotThenLiteral(b, s[|a|..]);
    assert url[i..i + |a|] == s[..|a|];
    assert url[i + |a|] == s[|a|];
    assert url[i + |a| + 1..i + |a| + 1 + |b|] == s[|a|..][1..];
  }

  lemma DotOccursAt(a: string, b: string, url: string, i: int)
    requires Translatable(a) && '*' !in a && '.' !in a
    requires Translatable(b) && '*' !in b && '.' !in b
    requires OccursAt(a, url, i) && i + |a| < |url| && !IsLineTerminator(url[i + |a|]) && OccursAt(b, url, i + |a| + 1)
    ensures Find(Compile(a) + ([AnyChar] + Compile(b)), url)
  {
    var q := [AnyChar] + Compile(b);
    var j := i + |a| + 1 + |b|;
    var s := url[i..j];
    assert s[..|a|] == a;
    assert s[|a|..][0] == url[i + |a|];
    assert s[|a|..][1..] == b;
    MatchDotThenLiteral(b, s[|a|..]);
    MatchLiteralThen(a, q, s);
    assert 0 <= i <= j <= |url| && Match(Compile(a) + q, url[i..j]);
  }

  // ---------------------------------------------------------------------------
  // Rules

  /** A rule whose value, if it has one, compiles within the modelled fragment. */
  predicate SupportedRule(r: string) {
    LineValue(r).Some? ==> Translatable(LineValue(r).value)
  }

  predicate SupportedRules(rules: seq<string>) {
    forall k :: 0 <= k < |rules| ==> SupportedRule(rules[k])
  }

  /** What one rule says about `url`: `None` if its pattern is not found,
      `Some(true)` if it is found and the directive is `allow`, `Some(false)`
      if it is found and the directive is anything else; an error where the
      rule has no value. */
  function Verdict(url: string, r: string): (v: Result<Option<bool>>)
    requires SupportedRule(r)
    ensures v.Err? <==> LineValue(r).None?
    ensures v.Err? ==> v.fault == IndexOutOfBounds
    ensures StartsWith(r, DisallowPrefix) && v.Ok? && v.value.Some? ==> !v.value.value
  {
    match LineValue(r)
    case None => Err(IndexOutOfBounds)
    case Some(v) =>
      if Find(Compile(v), url) then
        DisallowIsNotAllow(r);
        Ok(Some(Trim(Split(r, ':')[0]) == AllowPrefix))
      else Ok(None)
  }

  /** A `disallow` line never reads as an `allow` directive. */
  lemma DisallowIsNotAllow(r: string)
    requires |Split(r, ':')| >= 2
    ensures StartsWith(r, DisallowPrefix) ==> Trim(Split(r, ':')[0]) != AllowPrefix
  {
    if StartsWith(r, DisallowPrefix) {
      assert r[0] == DisallowPrefix[0];
      DirectiveHead(r);
    }
  }

  /** The directive `matches` reads off a line that starts with neither
      whitespace nor a colon starts with the line's first character. */
  lemma DirectiveHead(r: string)
    requires |Split(r, ':')| >= 2
    ensures r != [] && !IsTrimmed(r[0]) && r[0] != ':' ==>
      Trim(Split(r, ':')[0]) != [] && Trim(Split(r, ':')[0])[0] == r[0]
  {
    if r != [] && !IsTrimmed(r[0]) && r[0] != ':' {
      var piece := Split(r, ':')[0];
      assert piece == Pieces(r, ':')[0];
      assert piece != [] && piece[0] == r[0];
      var t := Trim(piece);
      var i :| TrimmedAt(piece, i, t);
      assert i == 0;
      assert t != [];
      assert t[0] == piece[0];
    }
  }

  /** The verdicts of `rules`, one per rule. */
  function Verdicts(url: string, rules: seq<string>): (vs: seq<Result<Option<bool>>>)
    requires SupportedRules(rules)
    ensures |vs| == |rules|
    ensures forall k :: 0 <= k < |rules| ==> vs[k] == Verdict(url, rules[k])
  {
    seq(|rules|, k requires 0 <= k < |rules| => Verdict(url, rules[k]))
  }

  /** The loop of `matches` over the verdicts of its rules: start from
      `true`, let every rule that is found set the answer, stop at the first
      malformed rule. */
  function Decide(vs: seq<Result<Option<bool>>>): (r: Result<bool>)
    ensures r.Err? ==> exists k :: 0 <= k < |vs| && vs[k] == Err(r.fault)
    ensures r == Ok(false) ==> exists k :: 0 <= k < |vs| && vs[k] == Ok(Some(false))
    decreases |vs|
  {
    if vs == [] then Ok(true)
    else
      match Decide(vs[..|vs| - 1])
      case Err(f) => Err(f)
      case Ok(allow) =>
        match vs[|vs| - 1]
        case Err(f) => Err(f)
        case Ok(None) => Ok(allow)
        case Ok(Some(v)) => Ok(v)
  }

  /** `matches` answers `false` only when some rule that disallows is found,
      and it throws only the out-of-bounds error of a rule without a value. */
  function MatchesSpec(url: string, rules: seq<string>): (r: Result<bool>)
    requires SupportedRules(rules)
    ensures r.Err? ==> r.fault == IndexOutOfBounds
    ensures r == Ok(false) ==> exists k :: 0 <= k < |rules| && Verdict(url, rules[k]) == Ok(Some(false))
  {
    Decide(Verdicts(url, rules))
  }

  lemma {:induction false} ErrStaysErr(vs: seq<Result<Option<bool>>>, k: nat)
    requires k <= |vs| && Decide(vs[..k]).Err?
    ensures Decide(vs) == Decide(vs[..k])
    decreases |vs|
  {
    if k < |vs| {
      var pre := vs[..|vs| - 1];
      assert pre[..k] == vs[..k];
      ErrStaysErr(pre, k);
    } else {
      assert vs[..k] == vs;
    }
  }

  lemma DecideSnoc(vs: seq<Result<Option<bool>>>, i: nat)
    requires i < |vs|
    ensures Decide(vs[..i + 1]) ==
      match Decide(vs[..i])
      case Err(f) => Err(f)
      case Ok(allow) =>
        match vs[i]
        case Err(f) => Err(f)
        case Ok(None) => Ok(allow)
        case Ok(Some(v)) => Ok(v)
  {
    assert vs[..i + 1][..i] == vs[..i];
  }

  /** The verdict of a rule, read off its directive and value as `matches`
      splits them. */
  lemma VerdictOfParts(url: string, r: string)
    requires SupportedRule(r) && |Split(r, ':')| >= 2
    ensures Verdict(url, r) ==
      if Find(Compile(Trim(Split(r, ':')[1])), url) then Ok(Some(Trim(Split(r, ':')[0]) == AllowPrefix)) else Ok(None)
  {
  }

  /** The body of the loop in `matches` for one rule: split off directive
      and value, compile the value and search the URL for it. */
  method JudgeRule(url: string, r: string) returns (v: Result<Option<bool>>)
    requires SupportedRule(r)
    ensures v == Verdict(url, r)
  {
    var parts := Split(r, ':');
    if |parts| < 2 {
      return Err(IndexOutOfBounds);
    }
    var directive := Trim(parts[0]);
    var rule := Trim(parts[1]);
    var pattern := Compile(rule);
    var found := Find(pattern, url);
    VerdictOfParts(url, r);
    v := if found then Ok(Some(directive == AllowPrefix)) else Ok(None);
  }

  /** A rule line with a single colon: its directive and value are the two
      sides of the colon, trimmed, and the rule is found where its value
      is. */
  lemma OneColonVerdict(directive: string, value: string, url: string)
    requires ':' !in directive && ':' !in value && directive != [] && value != []
    requires Translatable(Trim(value))
    ensures SupportedRule(directive + ":" + value)
    ensures Verdict(url, directive + ":" + value) ==
      if Find(Compile(Trim(value)), url) then Ok(Some(Trim(directive) == AllowPrefix)) else Ok(None)
  {
    ValueAfterOnlyColon(directive, value);
  }

  /** A rule `directive: pattern` with a literal pattern applies exactly
      to the URLs in which the pattern occurs. */
  lemma LiteralRuleVerdict(directive: string, pattern: string, url: string)
    requires ':' !in directive && directive != [] && !IsTrimmed(directive[0]) && !IsTrimmed(directive[|directive| - 1])
    requires ':' !in pattern && pattern != [] && !IsTrimmed(pattern[0]) && !IsTrimmed(pattern[|pattern| - 1])
    requires Translatable(pattern) && '*' !in pattern && '.' !in pattern
    ensures SupportedRule(directive + ": " + pattern)
    ensures Verdict(url, directive + ": " + pattern) ==
      if exists i :: OccursAt(pattern, url, i) then Ok(Some(directive == AllowPrefix)) else Ok(None)
  {
    var value := " " + pattern;
    assert directive + ": " + pattern == directive + ":" + value;
    assert value == " " + pattern + "";
    TrimAround(" ", pattern, "");
    assert directive == "" + directive + "";
    TrimAround("", directive, "");
    OneColonVerdict(directive, value, url);
    FindLiteral(pattern, url);
  }

  /** A rule `directive: pattern*` with a literal pattern applies exactly
      where `directive: pattern` does: the trailing `*` adds nothing. */
  lemma StarRuleVerdict(directive: string, pattern: string, url: string)
    requires ':' !in directive && directive != [] && !IsTrimmed(directive[0]) && !IsTrimmed(directive[|directive| - 1])
    requires ':' !in pattern && pattern != [] && !IsTrimmed(pattern[0])
    requires Translatable(pattern) && '*' !in pattern && '.' !in pattern
    ensures SupportedRule(directive + ": " + pattern + "*")
    ensures Verdict(url, directive + ": " + pattern + "*") ==
      if exists i :: OccursAt(pattern, url, i) then Ok(Some(directive == AllowPrefix)) else Ok(None)
  {
    var value := " " + pattern + "*";
    assert directive + ": " + pattern + "*" == directive + ":" + value;
    assert value == " " + (pattern + "*") + "";
    TrimAround(" ", pattern + "*", "");
    assert directive == "" + directive + "";
    TrimAround("", directive, "");
    CompileStar(pattern);
    OneColonVerdict(directive, value, url);
    TrailingStarIsRedundant(pattern, url);
    FindLiteral(pattern, url);
  }

  /** A value of nothing but whitespace, as in `disallow: ` or `disallow:\r`,
      trims to the empty pattern, which is found in every URL: such a rule
      applies everywhere. */
  lemma EmptyValueBlocksEverything(directive: string, blank: string, url: string)
    requires ':' !in directive && directive != []
    requires blank != [] && forall k :: 0 <= k < |blank| ==> IsTrimmed(blank[k])
    ensures SupportedRule(directive + ":" + blank)
    ensures Verdict(url, directive + ":" + blank) == Ok(Some(Trim(directive) == AllowPrefix))
  {
    assert blank == blank + "" + "";
    TrimAround(blank, "", "");
    FindEmpty(url);
    OneColonVerdict(directive, blank, url);
  }

  /** `matches`. */
  method Matches(url: string, rules: seq<string>) returns (allowed: Result<bool>)
    requires SupportedRules(rules)
    ensures allowed == MatchesSpec(url, rules)
  {
    ghost var vs := Verdicts(url, rules);
    var allow := true;
    var i := 0;
    while i < |rules|
      invariant 0 <= i <= |rules|
      invariant Decide(vs[..i]) == Ok(allow)
    {
      DecideSnoc(vs, i);
      var v := JudgeRule(url, rules[i]);
      if v.Err? {
        ErrStaysErr(vs, i + 1);
        return Err(v.fault);
      }
      if v.value.Some? {
        allow := v.value.value;
      }
      i := i + 1;
    }
    assert vs[..i] == vs;
    return Ok(allow);
  }

  /** With no malformed verdict the loop ends normally, and with none found
      its answer is `true`. */
  lemma {:induction false} NoneFoundAllows(vs: seq<Result<Option<bool>>>)
    requires forall k :: 0 <= k < |vs| ==> vs[k].Ok?
    ensures Decide(vs).Ok?
    ensures (forall k :: 0 <= k < |vs| ==> vs[k] == Ok(None)) ==> Decide(vs) == Ok(true)
    decreases |vs|
  {
    if vs != [] {
      var n := |vs|;
      var pre := vs[..n - 1];
      assert forall k :: 0 <= k < n - 1 ==> pre[k] == vs[k];
      NoneFoundAllows(pre);
    }
  }

  /** Last match wins: with no malformed verdict, the answer is that of the
      last rule that is found. */
  lemma {:induction false} LastFoundDecides(vs: seq<Result<Option<bool>>>, k: nat)
    requires forall m :: 0 <= m < |vs| ==> vs[m].Ok?
    requires k < |vs| && vs[k].value.Some?
    requires forall m :: k < m < |vs| ==> vs[m] == Ok(None)
    ensures Decide(vs) == Ok(vs[k].value.value)
    decreases |vs|
  {
    var n := |vs|;
    var pre := vs[..n - 1];
    assert forall m :: 0 <= m < n - 1 ==> pre[m] == vs[m];
    if k < n - 1 {
      LastFoundDecides(pre, k);
    } else {
      NoneFoundAllows(pre);
    }
  }

  /** The loop stops with an error exactly when some verdict is one. */
  lemma {:induction false} DecideFailsIff(vs: seq<Result<Option<bool>>>)
    ensures Decide(vs).Err? <==> exists k :: 0 <= k < |vs| && vs[k].Err?
    decreases |vs|
  {
    if vs != [] {
      var n := |vs|;
      var pre := vs[..n - 1];
      assert forall k :: 0 <= k < n - 1 ==> pre[k] == vs[k];
      DecideFailsIff(pre);
      if Decide(pre).Err? {
        var k :| 0 <= k < n - 1 && pre[k].Err?;
        assert vs[k].Err?;
      }
    }
  }

  /** `matches` throws exactly when some rule has no value. */
  lemma MatchesFailsIff(url: string, rules: seq<string>)
    requires SupportedRules(rules)
    ensures MatchesSpec(url, rules).Err? <==> exists k :: 0 <= k < |rules| && LineValue(rules[k]).None?
  {
    var vs := Verdicts(url, rules);
    DecideFailsIff(vs);
    if exists k :: 0 <= k < |vs| && vs[k].Err? {
      var k :| 0 <= k < |vs| && vs[k].Err?;
      assert LineValue(rules[k]).None?;
    }
  }

  /** With every rule well formed and no pattern found, the URL is allowed. */
  lemma NoMatchAllows(url: string, rules: seq<string>)
    requires SupportedRules(rules)
    requires forall k :: 0 <= k < |rules| ==> LineValue(rules[k]).Some? && !Find(Compile(LineValue(rules[k]).value), url)
    ensures MatchesSpec(url, rules) == Ok(true)
  {
    NoneFoundAllows(Verdicts(url, rules));
  }

  /** With every rule well formed, the last rule whose pattern is found
      decides: `allow` allows, any other directive disallows. */
  lemma LastMatchWins(url: string, rules: seq<string>, k: nat)
    requires SupportedRules(rules)
    requires forall m :: 0 <= m < |rules| ==> LineValue(rules[m]).Some?
    requires k < |rules| && Find(Compile(LineValue(rules[k]).value), url)
    requires forall m :: k < m < |rules| ==> !Find(Compile(LineValue(rules[m]).value), url)
    ensures MatchesSpec(url, rules) == Ok(Trim(Split(rules[k], ':')[0]) == AllowPrefix)
  {
    LastFoundDecides(Verdicts(url, rules), k);
  }
}
