/** The robots.txt parser of RobotCommand: `getLineValue` and the line loop
    of `parse`, as a step function over a parser state and its fold over the
    lines of the document, together with reference definitions of what the
    finished table holds and of which documents make the parse throw. */
module RobotParser {
  import opened JavaText

  /** Rule lines by user-agent token, each list in document order. */
  type Table = map<string, seq<string>>

  /** The directive prefixes `parse` tests with `startsWith`. */
  const UserAgentPrefix: string := "user-agent"
  const AllowPrefix: string := "allow"
  const DisallowPrefix: string := "disallow"
  const CrawlDelayPrefix: string := "crawl-delay"

  predicate IsUserAgentLine(line: string) { StartsWith(line, UserAgentPrefix) }

  predicate IsRuleLine(line: string) { StartsWith(line, AllowPrefix) || StartsWith(line, DisallowPrefix) }

  predicate IsCrawlDelayLine(line: string) { StartsWith(line, CrawlDelayPrefix) }

  /** The lines `parse` walks: the lower-cased text split on newlines. */
  function Lines(txt: string): (lines: seq<string>)
    ensures forall k :: 0 <= k < |lines| ==> NoUpper(lines[k]) && '\n' !in lines[k]
  {
    SplitKeepsNoUpper(ToLower(txt), '\n');
    Split(ToLower(txt), '\n')
  }

  // ---------------------------------------------------------------------------
  // getLineValue

  /** `getLineValue`: the trimmed text between the first and the second colon
      of the line, or `None` where `split(":")[1]` is out of bounds. */
  function LineValue(line: string): (r: Option<string>)
    ensures r.Some? ==> ':' !in r.value
    ensures r.Some? ==> r.value == [] || (!IsTrimmed(r.value[0]) && !IsTrimmed(r.value[|r.value| - 1]))
  {
    var parts := Split(line, ':');
    if |parts| < 2 then None
    else
      var v := Trim(parts[1]);
      TrimInside(parts[1], v, ':');
      Some(v)
  }

  lemma TrimInside(s: string, r: string, c: char)
    requires r == Trim(s) && c !in s
    ensures c !in r
  {
    var i :| TrimmedAt(s, i, r);
  }

  lemma LineValueKeepsNoUpper(line: string)
    requires NoUpper(line)
    ensures LineValue(line).Some? ==> NoUpper(LineValue(line).value)
  {
    SplitKeepsNoUpper(line, ':');
    if |Split(line, ':')| >= 2 {
      var p := Split(line, ':')[1];
      var v := Trim(p);
      var i :| TrimmedAt(p, i, v);
      forall k | 0 <= k < |v| ensures !IsUpper(v[k]) {
        assert v[k] == p[i + k];
      }
    }
  }

  lemma {:induction false} JoinOfEmpties(ps: seq<string>, sep: char)
    requires |ps| >= 1
    requires forall k :: 0 <= k < |ps| ==> ps[k] == []
    ensures forall k :: 0 <= k < |Join(ps, sep)| ==> Join(ps, sep)[k] == sep
  {
    if |ps| > 1 {
      JoinOfEmpties(ps[1..], sep);
    }
  }

  /** A string holding something besides separators has a non-empty piece. */
  lemma PiecesHaveNonEmpty(s: string, sep: char, k: int)
    requires 0 <= k < |s| && s[k] != sep
    ensures exists m :: 0 <= m < |Pieces(s, sep)| && Pieces(s, sep)[m] != []
  {
    JoinPieces(s, sep);
    if forall m :: 0 <= m < |Pieces(s, sep)| ==> Pieces(s, sep)[m] == [] {
      JoinOfEmpties(Pieces(s, sep), sep);
      assert false;
    }
  }

  /** The value is what lies between the first and the second colon, as long
      as something other than colons follows the first colon. */
  lemma ValueEndsAtSecondColon(name: string, value: string, rest: string)
    requires ':' !in name && ':' !in value
    requires value != [] || exists k :: 0 <= k < |rest| && rest[k] != ':'
    ensures LineValue(name + ":" + value + ":" + rest) == Some(Trim(value))
  {
    var line := name + ":" + value + ":" + rest;
    assert line == name + [':'] + (value + [':'] + rest);
    assert line[|name|] == ':';
    PiecesCons(name, value + [':'] + rest, ':');
    PiecesCons(value, rest, ':');
    var ps := Pieces(line, ':');
    assert ps == [name, value] + Pieces(rest, ':');
    var parts := Split(line, ':');
    if value == [] {
      var k :| 0 <= k < |rest| && rest[k] != ':';
      PiecesHaveNonEmpty(rest, ':', k);
      var m :| 0 <= m < |Pieces(rest, ':')| && Pieces(rest, ':')[m] != [];
      assert ps[m + 2] != [];
    } else {
      assert ps[1] != [];
    }
    assert parts[1] == value;
  }

  /** A line with a single colon has a value exactly when something follows
      the colon: `"disallow:"` makes `split(":")[1]` fail. */
  lemma ValueAfterOnlyColon(name: string, value: string)
    requires ':' !in name && ':' !in value
    ensures LineValue(name + ":" + value) == if value == [] then None else Some(Trim(value))
    ensures name != [] && value != [] ==> Split(name + ":" + value, ':') == [name, value]
  {
    var line := name + ":" + value;
    assert line == name + [':'] + value;
    assert line[|name|] == ':';
    PiecesCons(name, value, ':');
    PiecesOfSepFree(value, ':');
    assert Pieces(line, ':') == [name, value];
  }

  /** A line whose first colon is followed by colons only has no value
      either: `split` drops the empty pieces after the name. */
  lemma OnlyColonsNoValue(name: string, colons: string)
    requires ':' !in name && colons != []
    requires forall k :: 0 <= k < |colons| ==> colons[k] == ':'
    ensures LineValue(name + colons) == None
  {
    var line := name + colons;
    assert line == name + [':'] + colons[1..];
    PiecesCons(name, colons[1..], ':');
    PiecesOfColons(colons[1..]);
    assert line[|name|] == ':';
  }

  lemma {:induction false} PiecesOfColons(colons: string)
    requires forall k :: 0 <= k < |colons| ==> colons[k] == ':'
    ensures forall m :: 0 <= m < |Pieces(colons, ':')| ==> Pieces(colons, ':')[m] == []
  {
    if colons != [] {
      PiecesOfColons(colons[1..]);
    }
  }

  /** A line without a colon has no value. */
  lemma NoColonNoValue(line: string)
    requires ':' !in line
    ensures LineValue(line) == None
  {
  }

  // ---------------------------------------------------------------------------
  // The line loop of parse

  /** The local state of the loop in `parse`: `currentUA`, the table being
      built, and the `crawlDelay` field it assigns as it goes. */
  datatype ParseState = ParseState(current: string, table: Table, delay: int)

  /** How `parse` ends: normally with its final state, or by an exception,
      with the value `crawlDelay` held when it was thrown. */
  datatype ParseOutcome = Parsed(state: ParseState) | Aborted(fault: Fault, delay: int)

  /** One iteration of the loop in `parse`. It only ever adds agents and
      appends to their lists, it changes the delay only on a `crawl-delay`
      line, and a throw keeps the delay it had. */
  function Step(st: ParseState, line: string): (o: ParseOutcome)
    ensures o.Aborted? ==> o.delay == st.delay
    ensures o.Parsed? ==> st.table.Keys <= o.state.table.Keys
    ensures o.Parsed? ==> forall a :: a in st.table ==> st.table[a] <= o.state.table[a]
    ensures o.Parsed? && !IsCrawlDelayLine(line) ==> o.state.delay == st.delay
  {
    if IsUserAgentLine(line) then
      match LineValue(line)
      case None => Aborted(IndexOutOfBounds, st.delay)
      case Some(ua) =>
        Parsed(ParseState(ua, if ua in st.table then st.table else st.table[ua := []], st.delay))
    else if IsRuleLine(line) && st.current !in st.table then
      Aborted(NullPointer, st.delay)
    else
      var table := if IsRuleLine(line) then st.table[st.current := st.table[st.current] + [line]] else st.table;
      if IsCrawlDelayLine(line) then
        match LineValue(line)
        case None => Aborted(IndexOutOfBounds, st.delay)
        case Some(v) =>
          match ParseInt(v)
          case None => Aborted(NumberFormat, st.delay)
          case Some(d) => Parsed(ParseState(st.current, table, d))
      else
        Parsed(ParseState(st.current, table, st.delay))
  }

  function Start(delay: int): ParseState {
    ParseState("", map[], delay)
  }

  /** The loop of `parse` run over `lines`, starting from `crawlDelay == delay`. */
  function Run(lines: seq<string>, delay: int): (o: ParseOutcome)
    ensures (forall k :: 0 <= k < |lines| ==> !IsCrawlDelayLine(lines[k])) ==>
      (if o.Parsed? then o.state.delay else o.delay) == delay
    ensures (forall k :: 0 <= k < |lines| ==> Ignored(lines[k])) ==> o == Parsed(Start(delay))
    decreases |lines|
  {
    if lines == [] then Parsed(Start(delay))
    else
      match Run(lines[..|lines| - 1], delay)
      case Aborted(f, d) => Aborted(f, d)
      case Parsed(st) => Step(st, lines[|lines| - 1])
  }

  /** The fold one line further. */
  lemma RunSnoc(lines: seq<string>, i: nat, delay: int)
    requires i < |lines|
    ensures Run(lines[..i + 1], delay) ==
      match Run(lines[..i], delay)
      case Aborted(f, d) => Aborted(f, d)
      case Parsed(st) => Step(st, lines[i])
  {
    assert lines[..i + 1][..i] == lines[..i];
  }

  /** A line `parse` skips: it starts with none of the four prefixes. */
  predicate Ignored(line: string) {
    !IsUserAgentLine(line) && !IsRuleLine(line) && !IsCrawlDelayLine(line)
  }

  /** All of `parse` except storing the table: the outcome for a document.
      Without a `crawl-delay` line the delay is kept, and a document none of
      whose lines starts with a directive, the empty one included, gives an
      empty table. */
  function ParseText(txt: string, delay: int): (o: ParseOutcome)
    ensures (forall k :: 0 <= k < |Lines(txt)| ==> !IsCrawlDelayLine(Lines(txt)[k])) ==>
      (if o.Parsed? then o.state.delay else o.delay) == delay
    ensures (forall k :: 0 <= k < |Lines(txt)| ==> Ignored(Lines(txt)[k])) ==> o == Parsed(Start(delay))
  {
    Run(Lines(txt), delay)
  }

  /** Lower-casing first makes the parse blind to case: a document and its
      lower-cased copy parse alike. */
  lemma ParseIgnoresCase(txt: string, delay: int)
    ensures ParseText(ToLower(txt), delay) == ParseText(txt, delay)
  {
    ToLowerIdempotent(txt);
  }

  lemma PrefixesExclusive(line: string)
    ensures IsUserAgentLine(line) ==> !IsRuleLine(line) && !IsCrawlDelayLine(line)
    ensures IsRuleLine(line) ==> !IsCrawlDelayLine(line)
  {
    if IsUserAgentLine(line) { assert line[0] == UserAgentPrefix[0]; }
    if StartsWith(line, AllowPrefix) { assert line[0] == AllowPrefix[0]; }
    if StartsWith(line, DisallowPrefix) { assert line[0] == DisallowPrefix[0]; }
  }

  // ---------------------------------------------------------------------------
  // One line at a time

  /** A `user-agent` line makes its value current and gives it an empty list
      only if it has none yet; no agent's list changes. */
  lemma UserAgentLineStep(st: ParseState, line: string)
    requires IsUserAgentLine(line) && LineValue(line).Some?
    ensures var ua := LineValue(line).value;
      && Step(st, line).Parsed?
      && Step(st, line).state.current == ua
      && Step(st, line).state.table.Keys == st.table.Keys + {ua}
      && (forall a :: a in st.table ==> Step(st, line).state.table[a] == st.table[a])
      && (ua !in st.table ==> Step(st, line).state.table[ua] == [])
      && Step(st, line).state.delay == st.delay
  {
  }

  /** An `allow`/`disallow` line is appended verbatim to the current agent's
      list and to no other; before any agent is current it throws. */
  lemma RuleLineStep(st: ParseState, line: string)
    requires IsRuleLine(line)
    ensures st.current !in st.table ==> Step(st, line) == Aborted(NullPointer, st.delay)
    ensures st.current in st.table ==>
      && Step(st, line).Parsed?
      && Step(st, line).state.current == st.current
      && Step(st, line).state.table.Keys == st.table.Keys
      && Step(st, line).state.table[st.current] == st.table[st.current] + [line]
      && (forall a :: a in st.table && a != st.current ==> Step(st, line).state.table[a] == st.table[a])
      && Step(st, line).state.delay == st.delay
  {
    PrefixesExclusive(line);
  }

  /** A `crawl-delay` line sets the delay to its parsed value, or throws. */
  lemma CrawlDelayLineStep(st: ParseState, line: string)
    requires IsCrawlDelayLine(line)
    ensures LineValue(line).None? ==> Step(st, line) == Aborted(IndexOutOfBounds, st.delay)
    ensures LineValue(line).Some? && ParseInt(LineValue(line).value).None? ==>
      Step(st, line) == Aborted(NumberFormat, st.delay)
    ensures LineValue(line).Some? && ParseInt(LineValue(line).value).Some? ==>
      Step(st, line) == Parsed(st.(delay := ParseInt(LineValue(line).value).value))
  {
    PrefixesExclusive(line);
    assert !IsUserAgentLine(line) by { assert line[0] == 'c'; }
  }

  /** Any other line, including one with leading whitespace, changes nothing. */
  lemma OtherLineStep(st: ParseState, line: string)
    requires Ignored(line)
    ensures Step(st, line) == Parsed(st)
  {
  }

  // ---------------------------------------------------------------------------
  // What a finished parse holds, defined over the whole document

  /** The value of the last `user-agent` line of `lines`. */
  function LastAgent(lines: seq<string>): Option<string>
    decreases |lines|
  {
    if lines == [] then None
    else
      var line := lines[|lines| - 1];
      if IsUserAgentLine(line) && LineValue(line).Some? then LineValue(line)
      else LastAgent(lines[..|lines| - 1])
  }

  /** Every agent named by a `user-agent` line of `lines`. */
  function AgentsOf(lines: seq<string>): set<string>
    decreases |lines|
  {
    if lines == [] then {}
    else
      var line := lines[|lines| - 1];
      AgentsOf(lines[..|lines| - 1]) + if IsUserAgentLine(line) && LineValue(line).Some? then {LineValue(line).value} else {}
  }

  /** Agents named in lower-case lines are lower case. */
  lemma {:induction false} AgentsOfKeepNoUpper(lines: seq<string>)
    requires forall k :: 0 <= k < |lines| ==> NoUpper(lines[k])
    ensures forall a :: a in AgentsOf(lines) ==> NoUpper(a)
    decreases |lines|
  {
    if lines != [] {
      var pre := lines[..|lines| - 1];
      assert forall k :: 0 <= k < |pre| ==> pre[k] == lines[k];
      AgentsOfKeepNoUpper(pre);
      LineValueKeepsNoUpper(lines[|lines| - 1]);
    }
  }

  /** The rule lines of `lines` that come while `agent` is the last agent named. */
  function RulesFor(lines: seq<string>, agent: string): seq<string>
    decreases |lines|
  {
    if lines == [] then []
    else
      var pre, line := lines[..|lines| - 1], lines[|lines| - 1];
      RulesFor(pre, agent)
        + if !IsUserAgentLine(line) && IsRuleLine(line) && LastAgent(pre) == Some(agent) then [line] else []
  }

  /** The value of the last well-formed `crawl-delay` line, else `delay`. */
  function LastDelay(lines: seq<string>, delay: int): int
    decreases |lines|
  {
    if lines == [] then delay
    else
      var line := lines[|lines| - 1];
      if !IsUserAgentLine(line) && IsCrawlDelayLine(line) && LineValue(line).Some? && ParseInt(LineValue(line).value).Some?
      then ParseInt(LineValue(line).value).value
      else LastDelay(lines[..|lines| - 1], delay)
  }

  /** The last agent named is one of the agents named, and without one no
      agent is named at all. */
  lemma {:induction false} LastAgentIsAgent(lines: seq<string>)
    ensures LastAgent(lines).Some? ==> LastAgent(lines).value in AgentsOf(lines)
    ensures LastAgent(lines).None? ==> AgentsOf(lines) == {}
  {
    if lines != [] {
      LastAgentIsAgent(lines[..|lines| - 1]);
    }
  }

  /** Only an agent that has been named collects rules. */
  lemma {:induction false} RulesForNamedAgent(lines: seq<string>, agent: string)
    requires agent !in AgentsOf(lines)
    ensures RulesFor(lines, agent) == []
  {
    if lines != [] {
      var pre := lines[..|lines| - 1];
      LastAgentIsAgent(pre);
      RulesForNamedAgent(pre, agent);
    }
  }

  ghost predicate Characterized(lines: seq<string>, delay: int, st: ParseState) {
    && st.table.Keys == AgentsOf(lines)
    && st.current == (if LastAgent(lines).Some? then LastAgent(lines).value else "")
    && (forall a :: a in st.table ==> st.table[a] == RulesFor(lines, a))
    && st.delay == LastDelay(lines, delay)
  }

  /** How the reference definitions extend by one line. */
  lemma SnocFacts(pre: seq<string>, line: string, delay: int)
    ensures var lines := pre + [line];
      && lines[..|lines| - 1] == pre
      && LastAgent(lines) == (if IsUserAgentLine(line) && LineValue(line).Some? then LineValue(line) else LastAgent(pre))
      && AgentsOf(lines) == AgentsOf(pre) + (if IsUserAgentLine(line) && LineValue(line).Some? then {LineValue(line).value} else {})
      && (forall a :: RulesFor(lines, a) == RulesFor(pre, a)
            + if !IsUserAgentLine(line) && IsRuleLine(line) && LastAgent(pre) == Some(a) then [line] else [])
      && LastDelay(lines, delay) ==
           (if !IsUserAgentLine(line) && IsCrawlDelayLine(line) && LineValue(line).Some? && ParseInt(LineValue(line).value).Some?
            then ParseInt(LineValue(line).value).value else LastDelay(pre, delay))
  {
    var lines := pre + [line];
    assert lines[..|lines| - 1] == pre;
  }

  lemma UserAgentKeepsCharacterized(pre: seq<string>, line: string, delay: int, st0: ParseState)
    requires Characterized(pre, delay, st0)
    requires IsUserAgentLine(line) && LineValue(line).Some?
    ensures Step(st0, line).Parsed? && Characterized(pre + [line], delay, Step(st0, line).state)
  {
    var lines := pre + [line];
    SnocFacts(pre, line, delay);
    UserAgentLineStep(st0, line);
    var ua := LineValue(line).value;
    var st1 := Step(st0, line).state;
    assert st1.table.Keys == AgentsOf(lines);
    forall a | a in st1.table ensures st1.table[a] == RulesFor(lines, a) {
      assert RulesFor(lines, a) == RulesFor(pre, a);
      if a !in st0.table {
        RulesForNamedAgent(pre, a);
      }
    }
  }

  lemma RuleLineKeepsCharacterized(pre: seq<string>, line: string, delay: int, st0: ParseState)
    requires Characterized(pre, delay, st0)
    requires !IsUserAgentLine(line) && IsRuleLine(line) && st0.current in st0.table
    ensures Step(st0, line).Parsed? && Characterized(pre + [line], delay, Step(st0, line).state)
  {
    SnocFacts(pre, line, delay);
    PrefixesExclusive(line);
    LastAgentIsAgent(pre);
    assert LastAgent(pre) == Some(st0.current);
  }

  lemma OtherLineKeepsCharacterized(pre: seq<string>, line: string, delay: int, st0: ParseState)
    requires Characterized(pre, delay, st0)
    requires !IsUserAgentLine(line) && !IsRuleLine(line) && Step(st0, line).Parsed?
    ensures Characterized(pre + [line], delay, Step(st0, line).state)
  {
    SnocFacts(pre, line, delay);
  }

  /** A parse that completes holds exactly: one key per agent named, each
      mapped to the rule lines met while it was the last agent named, verbatim
      and in document order; the last agent named is current; and the delay
      is that of the last `crawl-delay` line. */
  lemma {:induction false} RunCharacterized(lines: seq<string>, delay: int)
    ensures Run(lines, delay).Parsed? ==> Characterized(lines, delay, Run(lines, delay).state)
  {
    if lines != [] && Run(lines, delay).Parsed? {
      var pre, line := lines[..|lines| - 1], lines[|lines| - 1];
      assert lines == pre + [line];
      RunCharacterized(pre, delay);
      var st0 := Run(pre, delay).state;
      if IsUserAgentLine(line) {
        UserAgentKeepsCharacterized(pre, line, delay, st0);
      } else if IsRuleLine(line) {
        RuleLineKeepsCharacterized(pre, line, delay, st0);
      } else {
        OtherLineKeepsCharacterized(pre, line, delay, st0);
      }
    }
  }

  /** A line that makes `parse` throw. */
  ghost predicate FaultyLine(lines: seq<string>, k: int)
    requires 0 <= k < |lines|
  {
    var line := lines[k];
    if IsUserAgentLine(line) then LineValue(line).None?
    else
      || (IsRuleLine(line) && LastAgent(lines[..k]).None?)
      || (IsCrawlDelayLine(line) && (LineValue(line).None? || ParseInt(LineValue(line).value).None?))
  }

  lemma {:induction false} AbortedStaysAborted(lines: seq<string>, k: nat, delay: int)
    requires k <= |lines| && Run(lines[..k], delay).Aborted?
    ensures Run(lines, delay) == Run(lines[..k], delay)
    decreases |lines|
  {
    if k < |lines| {
      var pre := lines[..|lines| - 1];
      assert pre[..k] == lines[..k];
      AbortedStaysAborted(pre, k, delay);
    } else {
      assert lines[..k] == lines;
    }
  }

  /** `parse` throws exactly when the document has a faulty line: a
      `user-agent` line without a value, a rule line before any agent is
      named, or a `crawl-delay` line whose value is missing or not a number. */
  lemma {:induction false} ParseFailsIff(lines: seq<string>, delay: int)
    ensures Run(lines, delay).Aborted? <==> exists k :: 0 <= k < |lines| && FaultyLine(lines, k)
  {
    if lines != [] {
      var n := |lines|;
      var pre, line := lines[..n - 1], lines[n - 1];
      ParseFailsIff(pre, delay);
      assert forall k :: 0 <= k < n - 1 ==> pre[..k] == lines[..k] && pre[k] == lines[k];
      assert forall k :: 0 <= k < n - 1 ==> (FaultyLine(pre, k) <==> FaultyLine(lines, k));
      assert lines[..n - 1] == pre;
      if Run(pre, delay).Parsed? {
        LastLineDecides(lines, delay);
        assert !exists k :: 0 <= k < n - 1 && FaultyLine(lines, k);
      } else {
        var k :| 0 <= k < n - 1 && FaultyLine(pre, k);
        assert FaultyLine(lines, k);
      }
    }
  }

  /** After a completed prefix, the last line throws exactly when it is
      faulty. */
  lemma LastLineDecides(lines: seq<string>, delay: int)
    requires lines != [] && Run(lines[..|lines| - 1], delay).Parsed?
    ensures Run(lines, delay).Aborted? <==> FaultyLine(lines, |lines| - 1)
  {
    var n := |lines|;
    var pre, line := lines[..n - 1], lines[n - 1];
    var st0 := Run(pre, delay).state;
    assert Run(lines, delay) == Step(st0, line);
    RunCharacterized(pre, delay);
    LastAgentIsAgent(pre);
    PrefixesExclusive(line);
    assert st0.current in st0.table <==> LastAgent(pre).Some?;
  }

  /** Every agent key and every rule line of a parsed document is lower case. */
  lemma ParsedIsLowerCase(txt: string, delay: int)
    requires ParseText(txt, delay).Parsed?
    ensures var t := ParseText(txt, delay).state.table;
      forall a :: a in t ==> NoUpper(a) && forall k :: 0 <= k < |t[a]| ==> NoUpper(t[a][k])
  {
    var lines := Lines(txt);
    RunCharacterized(lines, delay);
    AgentsOfKeepNoUpper(lines);
    var t := ParseText(txt, delay).state.table;
    forall a | a in t ensures NoUpper(a) && forall k :: 0 <= k < |t[a]| ==> NoUpper(t[a][k]) {
      RulesForAreLines(lines, a);
    }
  }

  /** The rules collected for an agent are rule lines of the document. */
  lemma {:induction false} RulesForAreLines(lines: seq<string>, agent: string)
    ensures forall k :: 0 <= k < |RulesFor(lines, agent)| ==>
      RulesFor(lines, agent)[k] in lines && IsRuleLine(RulesFor(lines, agent)[k])
  {
    if lines != [] {
      var pre := lines[..|lines| - 1];
      RulesForAreLines(pre, agent);
      assert forall r :: r in pre ==> r in lines;
    }
  }
}
