/** The `RobotCommand` object: a per-host cache of parsed robots.txt tables
    and the `crawlDelay` field, the `parse`/`cache` methods that fill them,
    `isAllowed`, which answers from a cached table, and the cache-hit/miss
    logic of `allow`. Fetching a robots.txt is a parameter (the text it
    returned, or `None` for an `IOException`) and the host is an opaque
    string. */
module RobotCommand {
  import opened JavaText
  import opened RobotParser
  import opened RobotMatcher

  /** The agent token whose rules apply to every crawler. */
  const DefaultAgent: string := "*"

  /** The rules `isAllowed` would evaluate for `ua` stay within the modelled
      pattern fragment. */
  predicate Evaluable(t: Table, ua: string) {
    && (DefaultAgent in t ==> SupportedRules(t[DefaultAgent]))
    && (ua in t ==> SupportedRules(t[ua]))
  }

  /** Every rule line of the document stays within the modelled pattern
      fragment. */
  predicate TextSupported(txt: string) {
    forall line :: line in Lines(txt) && IsRuleLine(line) ==> SupportedRule(line)
  }

  predicate TableSupported(t: Table) {
    forall a :: a in t ==> SupportedRules(t[a])
  }

  /** The answer `isAllowed` gives from table `t`: the `*` rules are matched
      first, if there are any; an agent entry then replaces that answer. The
      only exception is the out-of-bounds error of a rule without a value,
      and a URL is refused only when a disallowing rule of `*` or of `ua` is
      found in it. */
  function Evaluate(t: Table, url: string, ua: string): (r: Result<bool>)
    requires Evaluable(t, ua)
    ensures DefaultAgent !in t && ua !in t ==> r == Ok(true)
    ensures ua in t && (DefaultAgent in t ==> MatchesSpec(url, t[DefaultAgent]).Ok?) ==> r == MatchesSpec(url, t[ua])
    ensures DefaultAgent in t && (ua !in t || MatchesSpec(url, t[DefaultAgent]).Err?) ==> r == MatchesSpec(url, t[DefaultAgent])
    ensures r.Err? ==> r.fault == IndexOutOfBounds
    ensures r == Ok(false) ==>
      exists a, k :: a in t && (a == ua || a == DefaultAgent) && 0 <= k < |t[a]| && Verdict(url, t[a][k]) == Ok(Some(false))
  {
    var byDefault := if DefaultAgent in t then MatchesSpec(url, t[DefaultAgent]) else Ok(true);
    if byDefault.Err? then byDefault
    else if ua in t then MatchesSpec(url, t[ua])
    else byDefault
  }

  /** A table parsed from a supported document is supported. */
  lemma ParsedSupported(txt: string, delay: int)
    requires TextSupported(txt) && ParseText(txt, delay).Parsed?
    ensures TableSupported(ParseText(txt, delay).state.table)
  {
    var lines := Lines(txt);
    RunCharacterized(lines, delay);
    var t := ParseText(txt, delay).state.table;
    forall a | a in t ensures SupportedRules(t[a]) {
      RulesForAreLines(lines, a);
    }
  }

  /** The answer for a parsed document, read off the document itself: the
      rules of `*` and of `ua` are the rule lines met while each was the last
      agent named, and an agent counts as present when some `user-agent`
      line names it. */
  lemma ParsedDecision(txt: string, delay: int, url: string, ua: string)
    requires TextSupported(txt) && ParseText(txt, delay).Parsed?
    ensures var t, lines := ParseText(txt, delay).state.table, Lines(txt);
      && Evaluable(t, ua)
      && SupportedRules(RulesFor(lines, DefaultAgent)) && SupportedRules(RulesFor(lines, ua))
      && Evaluate(t, url, ua) ==
        var byDefault := if DefaultAgent in AgentsOf(lines) then MatchesSpec(url, RulesFor(lines, DefaultAgent)) else Ok(true);
        if byDefault.Err? then byDefault
        else if ua in AgentsOf(lines) then MatchesSpec(url, RulesFor(lines, ua))
        else byDefault
  {
    ParsedSupported(txt, delay);
    var t, lines := ParseText(txt, delay).state.table, Lines(txt);
    RunCharacterized(lines, delay);
    RulesForAreLines(lines, DefaultAgent);
    RulesForAreLines(lines, ua);
    assert DefaultAgent in t <==> DefaultAgent in AgentsOf(lines);
    assert ua in t <==> ua in AgentsOf(lines);
    assert DefaultAgent in t ==> t[DefaultAgent] == RulesFor(lines, DefaultAgent);
    assert ua in t ==> t[ua] == RulesFor(lines, ua);
  }

  /** Agent lookup is case-sensitive: the stored agents are lower case, so an
      agent token with an upper-case letter never finds its own entry and is
      answered from the `*` rules alone. */
  lemma AgentLookupIsCaseSensitive(txt: string, delay: int, url: string, ua: string)
    requires TextSupported(txt) && ParseText(txt, delay).Parsed?
    requires exists k :: 0 <= k < |ua| && IsUpper(ua[k])
    ensures var t := ParseText(txt, delay).state.table;
      && ua !in t
      && Evaluable(t, ua)
      && Evaluate(t, url, ua) == if DefaultAgent in t then MatchesSpec(url, t[DefaultAgent]) else Ok(true)
  {
    ParsedSupported(txt, delay);
    ParsedIsLowerCase(txt, delay);
  }

  class RobotCommand {
    /** Parsed tables by host. */
    var cache: map<string, Table>
    /** The delay of the last `crawl-delay` line parsed, by any host. */
    var crawlDelay: int
    /** The hosts whose robots.txt has been fetched, in order. */
    ghost var fetches: seq<string>

    constructor ()
      ensures cache == map[] && crawlDelay == 0 && fetches == []
    {
      cache := map[];
      crawlDelay := 0;
      fetches := [];
    }

    /** `parse`: walks the lower-cased lines of `txt`, assigning `crawlDelay`
        as it meets `crawl-delay` lines, and stores the finished table under
        `host`. An exception (`Some` fault here) leaves the cache as it was
        and `crawlDelay` as the last line before it set it. */
    method Parse(txt: string, host: string) returns (fault: Option<Fault>)
      modifies this`cache, this`crawlDelay
      ensures match ParseText(txt, old(crawlDelay))
        case Parsed(st) => fault == None && cache == old(cache)[host := st.table] && crawlDelay == st.delay
        case Aborted(f, d) => fault == Some(f) && cache == old(cache) && crawlDelay == d
    {
      ghost var delay0 := crawlDelay;
      fault := None;
      var current: string := "";
      var rules: Table := map[];
      var lower := ToLower(txt);
      var lines := Split(lower, '\n');
      assert lines == Lines(txt);
      assert ParseText(txt, delay0) == Run(lines, delay0);
      var i := 0;
      while i < |lines|
        invariant 0 <= i <= |lines|
        invariant cache == old(cache) && fault == None
        invariant Run(lines[..i], delay0) == Parsed(ParseState(current, rules, crawlDelay))
      {
        RunSnoc(lines, i, delay0);
        current, rules, fault := ParseLine(current, rules, lines[i]);
        if fault.Some? {
          AbortedStaysAborted(lines, i + 1, delay0);
          return;
        }
        i := i + 1;
      }
      assert lines[..i] == lines;
      cache := cache[host := rules];
    }

    /** One pass of the loop in `parse`: a `user-agent` line makes its value
        current, adding an empty list for a new agent; an `allow`/`disallow`
        line is appended to the current agent's list; a `crawl-delay` line
        assigns `crawlDelay`. */
    method ParseLine(current: string, rules: Table, line: string) returns (current': string, rules': Table, fault: Option<Fault>)
      modifies this`crawlDelay
      ensures match Step(ParseState(current, rules, old(crawlDelay)), line)
        case Parsed(st) => fault == None && current' == st.current && rules' == st.table && crawlDelay == st.delay
        case Aborted(f, d) => fault == Some(f) && crawlDelay == d
    {
      current', rules', fault := current, rules, None;
      PrefixesExclusive(line);
      if StartsWith(line, UserAgentPrefix) {
        var ua := LineValue(line);
        if ua.None? {
          return current', rules', Some(IndexOutOfBounds);
        }
        if ua.value !in rules' {
          rules' := rules'[ua.value := []];
        }
        current' := ua.value;
      } else {
        if StartsWith(line, AllowPrefix) || StartsWith(line, DisallowPrefix) {
          if current' !in rules' {
            return current', rules', Some(NullPointer);
          }
          rules' := rules'[current' := rules'[current'] + [line]];
        }
        if StartsWith(line, CrawlDelayPrefix) {
          var v := LineValue(line);
          if v.None? {
            return current', rules', Some(IndexOutOfBounds);
          }
          var d := ParseInt(v.value);
          if d.None? {
            return current', rules', Some(NumberFormat);
          }
          crawlDelay := d.value;
        }
      }
    }

    /** `cache`: parses `txt` into the entry for `host`. */
    method Cache(host: string, txt: string) returns (fault: Option<Fault>)
      modifies this`cache, this`crawlDelay
      ensures match ParseText(txt, old(crawlDelay))
        case Parsed(st) => fault == None && cache == old(cache)[host := st.table] && crawlDelay == st.delay
        case Aborted(f, d) => fault == Some(f) && cache == old(cache) && crawlDelay == d
    {
      fault := Parse(txt, host);
    }

    /** `isAllowed`: the answer from the cached table of `host`; a host with
        no entry dereferences null. With neither a `*` nor a `ua` entry the
        answer is `true`; an entry for `ua` decides whatever the `*` rules
        answer, unless matching them throws; without one the `*` rules
        decide. The cache is read, never written. */
    method IsAllowed(host: string, url: string, ua: string) returns (r: Result<bool>)
      requires host in cache ==> Evaluable(cache[host], ua)
      ensures host !in cache ==> r == Err(NullPointer)
      ensures host in cache ==> r == Evaluate(cache[host], url, ua)
      ensures host in cache && DefaultAgent !in cache[host] && ua !in cache[host] ==> r == Ok(true)
      ensures host in cache && ua in cache[host]
              && (DefaultAgent in cache[host] ==> MatchesSpec(url, cache[host][DefaultAgent]).Ok?)
              ==> r == MatchesSpec(url, cache[host][ua])
      ensures host in cache && DefaultAgent in cache[host]
              && (ua !in cache[host] || MatchesSpec(url, cache[host][DefaultAgent]).Err?)
              ==> r == MatchesSpec(url, cache[host][DefaultAgent])
    {
      if host !in cache {
        return Err(NullPointer);
      }
      var hostRules := cache[host];
      var allowed: Result<bool> := Ok(true);
      if DefaultAgent in hostRules {
        allowed := Matches(url, hostRules[DefaultAgent]);
        if allowed.Err? {
          return allowed;
        }
      }
      if ua in hostRules {
        allowed := Matches(url, hostRules[ua]);
      }
      return allowed;
    }

    /** The cache logic of `allow`: on a miss the robots.txt of `host` is
        fetched (`fetched`, `None` for an `IOException`) and parsed into the
        cache; on a hit nothing is fetched or parsed. Either way the answer
        is then read from the cache. */
    method Allow(host: string, url: string, ua: string, fetched: Option<string>) returns (r: Result<bool>)
      requires host in cache ==> Evaluable(cache[host], ua)
      requires host !in cache && fetched.Some? ==> TextSupported(fetched.value)
      modifies this`cache, this`crawlDelay, this`fetches
      ensures fetches == old(fetches) + if host in old(cache) then [] else [host]
      ensures host in old(cache) ==>
        cache == old(cache) && crawlDelay == old(crawlDelay) && r == Evaluate(old(cache)[host], url, ua)
      ensures host !in old(cache) && fetched.None? ==>
        cache == old(cache) && crawlDelay == old(crawlDelay) && r == Err(IO)
      ensures host !in old(cache) && fetched.Some? ==>
        match ParseText(fetched.value, old(crawlDelay))
        case Parsed(st) =>
          && cache == old(cache)[host := st.table] && crawlDelay == st.delay
          && Evaluable(st.table, ua) && r == Evaluate(st.table, url, ua)
        case Aborted(f, d) => cache == old(cache) && crawlDelay == d && r == Err(f)
      ensures r.Ok? ==> host in cache && Evaluable(cache[host], ua) && r == Evaluate(cache[host], url, ua)
    {
      if host !in cache {
        fetches := fetches + [host];
        if fetched.None? {
          return Err(IO);
        }
        var fault := Cache(host, fetched.value);
        if fault.Some? {
          return Err(fault.value);
        }
        ParsedSupported(fetched.value, old(crawlDelay));
      }
      r := IsAllowed(host, url, ua);
    }

    /** Two calls of `allow` for the same host. When the first leaves the
        host cached (a hit, or a miss whose document parses), the second
        fetches and parses nothing, changes nothing and answers the same.
        Otherwise both calls fetch, both fail, and the cache is as before. */
    method AllowTwice(host: string, url: string, ua: string, fetched: Option<string>) returns (r1: Result<bool>, r2: Result<bool>)
      requires host in cache ==> Evaluable(cache[host], ua)
      requires fetched.Some? ==> TextSupported(fetched.value)
      modifies this`cache, this`crawlDelay, this`fetches
      ensures host in old(cache) ==>
        && cache == old(cache) && crawlDelay == old(crawlDelay) && fetches == old(fetches)
        && r1 == Evaluate(old(cache)[host], url, ua) && r2 == r1
      ensures host !in old(cache) && fetched.Some? && ParseText(fetched.value, old(crawlDelay)).Parsed? ==>
        var st := ParseText(fetched.value, old(crawlDelay)).state;
        && cache == old(cache)[host := st.table] && crawlDelay == st.delay && fetches == old(fetches) + [host]
        && Evaluable(st.table, ua) && r1 == Evaluate(st.table, url, ua) && r2 == r1
      ensures host !in old(cache) && (fetched.None? || ParseText(fetched.value, old(crawlDelay)).Aborted?) ==>
        && cache == old(cache) && fetches == old(fetches) + [host, host] && r1.Err? && r2.Err?
    {
      r1 := Allow(host, url, ua, fetched);
      if fetched.Some? {
        ParseFailsIff(Lines(fetched.value), old(crawlDelay));
        ParseFailsIff(Lines(fetched.value), crawlDelay);
      }
      r2 := Allow(host, url, ua, fetched);
    }
  }
}
