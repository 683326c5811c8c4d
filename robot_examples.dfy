/** Worked cases of the engine: the rule `disallow: /etc` of the demo driver
    against the two URLs it asks about, an empty rule value, and a document
    whose rules overlap. */
module RobotExamples {
  import opened JavaText
  import opened RobotParser
  import opened RobotMatcher
  import opened RobotCommand

  const EtcRule: string := "disallow" + ": " + "/etc"

  /** `disallow: /etc` disallows exactly the URLs in which `/etc` occurs,
      anywhere, host included. */
  lemma EtcRuleVerdict(url: string)
    ensures SupportedRule(EtcRule)
    ensures Verdict(url, EtcRule) == if exists i :: OccursAt("/etc", url, i) then Ok(Some(false)) else Ok(None)
  {
    var directive, pattern := "disallow", "/etc";
    assert Translatable(pattern) && '*' !in pattern && '.' !in pattern;
    assert ':' !in directive && ':' !in pattern;
    LiteralRuleVerdict(directive, pattern, url);
    assert EtcRule == directive + ": " + pattern;
  }

  /** No four consecutive characters of `http://www.google.com.ng/et`
      spell `/etc`. */
  lemma EtNoWindow(i: int)
    ensures 0 <= i <= 23 ==>
      || "http://www.google.com.ng/et"[i] != '/'
      || "http://www.google.com.ng/et"[i + 1] != 'e'
      || "http://www.google.com.ng/et"[i + 2] != 't'
      || "http://www.google.com.ng/et"[i + 3] != 'c'
  {
  }

  /** So `/etc` does not occur in `http://www.google.com.ng/et`. */
  lemma EtcNotInEt(i: int)
    ensures !OccursAt("/etc", "http://www.google.com.ng/et", i)
  {
    var v, url := "/etc", "http://www.google.com.ng/et";
    EtNoWindow(i);
    OccursChar(v, url, i, 0);
    OccursChar(v, url, i, 1);
    OccursChar(v, url, i, 2);
    OccursChar(v, url, i, 3);
  }

  /** The demo driver asks about two URLs for agent `bot`, whose only rule
      is `disallow: /etc`: `.../et` is allowed ... */
  lemma DemoAllowsEt()
    ensures Evaluable(map["bot" := [EtcRule]], "bot")
    ensures Evaluate(map["bot" := [EtcRule]], "http://www.google.com.ng/et", "bot") == Ok(true)
  {
    var url := "http://www.google.com.ng/et";
    EtcRuleVerdict(url);
    forall i ensures !OccursAt("/etc", url, i) {
      EtcNotInEt(i);
    }
    var vs := Verdicts(url, [EtcRule]);
    assert vs[0] == Ok(None);
    NoneFoundAllows(vs);
  }

  /** ... while `.../etc`, and any URL going on from it, is not. */
  lemma DemoBlocksEtc(rest: string)
    ensures Evaluable(map["bot" := [EtcRule]], "bot")
    ensures Evaluate(map["bot" := [EtcRule]], "http://www.google.com.ng/etc" + rest, "bot") == Ok(false)
  {
    var url := "http://www.google.com.ng/etc" + rest;
    EtcRuleVerdict(url);
    assert url == "http://www.google.com.ng" + "/etc" + rest;
    OccursInMiddle("http://www.google.com.ng", "/etc", rest);
    var vs := Verdicts(url, [EtcRule]);
    assert vs[0] == Ok(Some(false));
    LastFoundDecides(vs, 0);
  }

  // ---------------------------------------------------------------------------
  // Overlapping rules: the later one wins

  const BroadRule: string := "disallow" + ": " + "/a" + "*"
  const NarrowRule: string := "allow" + ": " + "/a/public"

  lemma BroadRuleVerdict(url: string)
    ensures SupportedRule(BroadRule)
    ensures Verdict(url, BroadRule) == if exists i :: OccursAt("/a", url, i) then Ok(Some(false)) else Ok(None)
  {
    var directive, pattern := "disallow", "/a";
    assert Translatable(pattern) && '*' !in pattern && '.' !in pattern && ':' !in pattern;
    assert ':' !in directive;
    StarRuleVerdict(directive, pattern, url);
    assert BroadRule == directive + ": " + pattern + "*";
  }

  lemma NarrowRuleVerdict(url: string)
    ensures SupportedRule(NarrowRule)
    ensures Verdict(url, NarrowRule) == if exists i :: OccursAt("/a/public", url, i) then Ok(Some(true)) else Ok(None)
  {
    var directive, pattern := "allow", "/a/public";
    assert Translatable(pattern) && '*' !in pattern && '.' !in pattern && ':' !in pattern;
    assert ':' !in directive;
    LiteralRuleVerdict(directive, pattern, url);
    assert NarrowRule == directive + ": " + pattern;
  }

  /** No five consecutive characters of `http://h/a/private` spell `/a/pu`. */
  lemma PrivateNoWindow(i: int)
    ensures 0 <= i <= 9 ==>
      || "http://h/a/private"[i] != '/'
      || "http://h/a/private"[i + 1] != 'a'
      || "http://h/a/private"[i + 2] != '/'
      || "http://h/a/private"[i + 3] != 'p'
      || "http://h/a/private"[i + 4] != 'u'
  {
  }

  lemma PublicNotInPrivate(i: int)
    ensures !OccursAt("/a/public", "http://h/a/private", i)
  {
    var v, url := "/a/public", "http://h/a/private";
    PrivateNoWindow(i);
    OccursChar(v, url, i, 0);
    OccursChar(v, url, i, 1);
    OccursChar(v, url, i, 2);
    OccursChar(v, url, i, 3);
    OccursChar(v, url, i, 4);
  }

  lemma BroadFound(site: string, rest: string)
    ensures SupportedRule(BroadRule) && Verdict(site + "/a/public" + rest, BroadRule) == Ok(Some(false))
  {
    var url := site + "/a/public" + rest;
    BroadRuleVerdict(url);
    OccursInMiddle(site, "/a/public", rest);
    assert url[|site|..|site| + 2] == "/a";
    assert OccursAt("/a", url, |site|);
  }

  lemma NarrowFound(site: string, rest: string)
    ensures SupportedRule(NarrowRule) && Verdict(site + "/a/public" + rest, NarrowRule) == Ok(Some(true))
  {
    NarrowRuleVerdict(site + "/a/public" + rest);
    OccursInMiddle(site, "/a/public", rest);
  }

  lemma BroadFoundInPrivate()
    ensures SupportedRule(BroadRule) && Verdict("http://h/a/private", BroadRule) == Ok(Some(false))
  {
    var url := "http://h/a/private";
    BroadRuleVerdict(url);
    assert url[8..10] == "/a";
    assert OccursAt("/a", url, 8);
  }

  lemma NarrowNotFoundInPrivate()
    ensures SupportedRule(NarrowRule) && Verdict("http://h/a/private", NarrowRule) == Ok(None)
  {
    var url := "http://h/a/private";
    NarrowRuleVerdict(url);
    forall i ensures !OccursAt("/a/public", url, i) {
      PublicNotInPrivate(i);
    }
  }

  /** Two verdicts, neither malformed: the second decides when its pattern
      is found, else the first when its pattern is found, else the URL is
      allowed. */
  lemma DecidePair(vs: seq<Result<Option<bool>>>)
    requires |vs| == 2 && vs[0].Ok? && vs[1].Ok?
    ensures Decide(vs) ==
      if vs[1].value.Some? then Ok(vs[1].value.value)
      else if vs[0].value.Some? then Ok(vs[0].value.value)
      else Ok(true)
  {
    if vs[1].value.Some? {
      LastFoundDecides(vs, 1);
    } else if vs[0].value.Some? {
      LastFoundDecides(vs, 0);
    } else {
      NoneFoundAllows(vs);
    }
  }

  /** With `disallow: /a*` followed by `allow: /a/public`, a URL with
      `/a/public` in it is allowed by the later rule ... */
  lemma LaterAllowWins(site: string, rest: string)
    ensures SupportedRules([BroadRule, NarrowRule])
    ensures MatchesSpec(site + "/a/public" + rest, [BroadRule, NarrowRule]) == Ok(true)
  {
    BroadFound(site, rest);
    NarrowFound(site, rest);
    var vs := Verdicts(site + "/a/public" + rest, [BroadRule, NarrowRule]);
    DecidePair(vs);
  }

  /** ... while one elsewhere under `/a` is disallowed by the earlier one. */
  lemma EarlierDisallowStands()
    ensures SupportedRules([BroadRule, NarrowRule])
    ensures MatchesSpec("http://h/a/private", [BroadRule, NarrowRule]) == Ok(false)
  {
    BroadFoundInPrivate();
    NarrowNotFoundInPrivate();
    var vs := Verdicts("http://h/a/private", [BroadRule, NarrowRule]);
    DecidePair(vs);
  }
}
