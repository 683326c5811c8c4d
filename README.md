# RobotCommand robots.txt engine, modelled in Dafny

`RobotCommand` is a small Java engine that decides whether a crawler may fetch
a URL. It does this from the host's robots.txt. It has three parts:

- **Parser** (`parse`, `getLineValue`): lower-cases the document, splits it into
  lines and tracks the "current" user agent. It builds a table from agent token
  to the raw `allow`/`disallow` lines met while that agent was current, assigns
  the object-wide `crawlDelay` field from `crawl-delay` lines, and stores the
  table under the host in the `cache` field.
- **Matcher** (`matches`): splits each stored rule line at its colons into a
  directive and a value. It turns the value into a regular expression (`*`
  becomes `.*`, `?` becomes `[?]`) and searches for it anywhere in the full URL.
  The last rule that is found decides.
- **Evaluator and cache** (`isAllowed`, `allow`): `isAllowed` matches the `*`
  rules and then, if the agent has an entry of its own, that entry's rules
  instead. `allow` fetches and parses a robots.txt only for a host not yet
  cached.

The model is split across five files:

- `java_text.dfy` (module `JavaText`) writes out the Java library behaviour the
  engine relies on:
  - `toLowerCase`, on ASCII;
  - `trim`, which removes every character up to U+0020;
  - `split` on one character, which drops trailing empty pieces;
  - `Integer.parseInt`, with its 32-bit range and the decimal digits of every
    script in the Basic Multilingual Plane, as `Character.digit` reads them
    (the Unicode 15.0 table);
  - the exceptions that escape, as the `Fault` datatype.
- `robot_parser.dfy` (module `RobotParser`) models the parser:
  - `getLineValue`, and the loop of `parse` as a step function over a parser
    state;
  - `Run`, the fold of that step function over the lines;
  - reference definitions, over the whole document, of what a finished table
    holds (`AgentsOf`, `RulesFor`, `LastDelay`) and of which documents make
    `parse` throw (`FaultyLine`).
- `robot_matcher.dfy` (module `RobotMatcher`) models `matches`:
  - patterns as token sequences, where `.` is any one character and `*` is any
    run, neither matching a line terminator;
  - `Find`, an unanchored search;
  - the verdict of one rule;
  - the fold `Decide` over the verdicts;
  - the `Matches` loop, proved against that fold.
- `robot_command.dfy` (module `RobotCommand`) holds the `RobotCommand` class. Its
  fields are `cache` and `crawlDelay`, and its methods are `Parse`/`ParseLine`,
  `Cache`, `IsAllowed` and `Allow`. The module also holds `Evaluate`, the
  reference definition of the answer `isAllowed` gives from a table.
- `robot_examples.dfy` (module `RobotExamples`) works through concrete cases:
  - the demo driver's rule `disallow: /etc` against its two URLs;
  - overlapping rules, where the later rule wins.

Java exceptions become `Err(fault)` results. Each has its own case:

- `IndexOutOfBounds` for `split(":")[1]` on a line with fewer than two pieces:
  one with no colon, nothing after its first colon, or only colons after it
  (`disallow::`), since `split` drops trailing empty pieces.
- `NullPointer` for a rule line before any agent is current, and for
  `isAllowed` on a host that is not cached.
- `NumberFormat` for a `crawl-delay` value that is not a 32-bit integer.
- `IO` for a failed fetch.

When `parse` throws, the model keeps what the Java code leaves behind. The cache
is untouched, because the table is stored only after the loop. `crawlDelay`
keeps whatever the lines before the throw assigned.

## Where the code and its design notes differ

The model follows the code in each case:

- The design notes say malformed lines are skipped. The code throws: a
  `user-agent`, `allow`, `disallow` or `crawl-delay` line with no colon,
  nothing after its first colon, or only colons after it, raises
  `IndexOutOfBounds` from `split(":")[1]`, either in `parse` or later in
  `matches`. A non-numeric `crawl-delay` raises `NumberFormatException`
  and ends the parse. Only a line that starts with none of the four prefixes is
  ignored, which includes any line with leading whitespace.
- The design notes say the path is matched. The code matches the pattern
  anywhere in the full URL string, host included.
- The design notes say an agent entry wholly overrides the `*` rules. The code
  matches the `*` rules first. When one of them is malformed it throws, even
  when the agent has an entry. `IsAllowed` and `Evaluate` state exactly that.

## Model

| member | source | states |
|---|---|---|
| JavaText.ToLower | src/main/java/com/wordpress/ncodes/RobotCommand.java:192 | same length; no upper-case ASCII letter remains; every other character is kept and `A`-`Z` move up by 32 |
| JavaText.ToLowerIdempotent | src/main/java/com/wordpress/ncodes/RobotCommand.java:192 | lower-casing twice is lower-casing once |
| JavaText.Trim | src/main/java/com/wordpress/ncodes/RobotCommand.java:177 | the result is a slice of the input whose first and last characters are above U+0020, and everything cut off on either side is at most U+0020 |
| JavaText.TrimAround | src/main/java/com/wordpress/ncodes/RobotCommand.java:177 | trimming whitespace-only margins around a middle that neither starts nor ends with whitespace gives exactly that middle |
| JavaText.JoinPieces | src/main/java/com/wordpress/ncodes/RobotCommand.java:195 | joining the pieces between separators back with the separator gives the original string |
| JavaText.PiecesOfJoin | src/main/java/com/wordpress/ncodes/RobotCommand.java:195 | splitting the join of separator-free pieces gives those pieces back |
| JavaText.Split | src/main/java/com/wordpress/ncodes/RobotCommand.java:195 | with no separator in the string the result is the string alone; otherwise it is the pieces with every trailing empty piece dropped and the last one kept non-empty; no piece holds the separator |
| JavaText.ParseInt | src/main/java/com/wordpress/ncodes/RobotCommand.java:227 | a number comes back only within the 32-bit range and only for a non-empty text; a non-digit after the first position, or a first character that is neither sign nor digit, is a failure; digits are the decimal digits of any script |
| JavaText.ParseIntDigits | src/main/java/com/wordpress/ncodes/RobotCommand.java:227 | every non-empty digit string, leading zeros included, reads as its decimal value when that is at most 2^31-1 and fails beyond; with `+` the same; with `-` it reads as the negated value down to -2^31 |
| JavaText.ParseIntEdges | src/main/java/com/wordpress/ncodes/RobotCommand.java:227 | `2147483648` overflows and fails, while `-2147483648` reads as the least 32-bit value |
| JavaText.FullwidthDigit | src/main/java/com/wordpress/ncodes/RobotCommand.java:227 | the fullwidth digit U+FF15 reads as 5, as `Character.digit` reads it |
| JavaText.BelowDigits | src/main/java/com/wordpress/ncodes/RobotCommand.java:227 | no character below `0` is a digit of any script, so a sign is never a digit |
| JavaText.ParseIntShowNat | src/main/java/com/wordpress/ncodes/RobotCommand.java:227 | the decimal text of every value up to 2^31-1, unsigned, with `+` or with `-`, parses back to that value |
| RobotParser.Lines | src/main/java/com/wordpress/ncodes/RobotCommand.java:192-195 | the lines walked contain no upper-case letter and no newline |
| RobotParser.LineValue | src/main/java/com/wordpress/ncodes/RobotCommand.java:175-178 | a value has no colon and neither starts nor ends with whitespace; `None` is the out-of-bounds `split(":")[1]` |
| RobotParser.ValueEndsAtSecondColon | src/main/java/com/wordpress/ncodes/RobotCommand.java:177 | the value of `name:value:rest` is the trimmed text between the first two colons, whenever something besides colons follows the first |
| RobotParser.ValueAfterOnlyColon | src/main/java/com/wordpress/ncodes/RobotCommand.java:177 | a line with one colon has a value exactly when something follows the colon, and then it is that text trimmed |
| RobotParser.NoColonNoValue | src/main/java/com/wordpress/ncodes/RobotCommand.java:177 | a line without a colon has no value |
| RobotParser.OnlyColonsNoValue | src/main/java/com/wordpress/ncodes/RobotCommand.java:177 | a line whose first colon is followed by colons only, such as `disallow::`, has no value, since `split` drops the empty pieces |
| RobotParser.PrefixesExclusive | src/main/java/com/wordpress/ncodes/RobotCommand.java:200-226 | a `user-agent` line is neither a rule nor a `crawl-delay` line, and a rule line is not a `crawl-delay` line |
| RobotParser.Step | src/main/java/com/wordpress/ncodes/RobotCommand.java:200-227 | one loop pass only adds agents and appends to their lists, never removes or shortens one; it changes the delay only on a `crawl-delay` line; a throw carries the delay it found |
| RobotParser.UserAgentLineStep | src/main/java/com/wordpress/ncodes/RobotCommand.java:200-211 | a `user-agent` line makes its value current, adds an empty list only for an agent not seen before, changes no existing list and leaves the delay alone |
| RobotParser.RuleLineStep | src/main/java/com/wordpress/ncodes/RobotCommand.java:216-223 | a rule line is appended verbatim to the current agent's list and to no other; with no current agent in the table it is a null dereference |
| RobotParser.CrawlDelayLineStep | src/main/java/com/wordpress/ncodes/RobotCommand.java:226-227 | a `crawl-delay` line sets the delay to its parsed value, and throws when the value is missing or not a number |
| RobotParser.OtherLineStep | src/main/java/com/wordpress/ncodes/RobotCommand.java:198-228 | any other line, including one with leading whitespace, changes nothing |
| RobotParser.Run | src/main/java/com/wordpress/ncodes/RobotCommand.java:198-229 | a document without `crawl-delay` lines leaves the delay as it was, whether the loop completes or throws; one with only skipped lines gives the empty table |
| RobotParser.ParseText | src/main/java/com/wordpress/ncodes/RobotCommand.java:185-229 | the same for the loop run over the lines of a whole document |
| RobotParser.ParseIgnoresCase | src/main/java/com/wordpress/ncodes/RobotCommand.java:192 | a document and its lower-cased copy parse alike |
| RobotParser.AgentsOfKeepNoUpper | src/main/java/com/wordpress/ncodes/RobotCommand.java:203 | agents named in lower-case lines are lower case |
| RobotParser.LastAgentIsAgent | src/main/java/com/wordpress/ncodes/RobotCommand.java:210 | the current agent is one of the agents named, and with none current none is named |
| RobotParser.RulesForNamedAgent | src/main/java/com/wordpress/ncodes/RobotCommand.java:219-222 | an agent never named collects no rule |
| RobotParser.RunCharacterized | src/main/java/com/wordpress/ncodes/RobotCommand.java:185-229 | a completed parse holds one key per agent named, each mapped to the rule lines met while it was the last agent named, verbatim and in document order; the current agent is the last named; the delay is that of the last valid `crawl-delay` line |
| RobotParser.AbortedStaysAborted | src/main/java/com/wordpress/ncodes/RobotCommand.java:198-229 | once the loop has thrown, the later lines do not matter |
| RobotParser.ParseFailsIff | src/main/java/com/wordpress/ncodes/RobotCommand.java:187-227 | `parse` throws exactly when some line is faulty: a `user-agent` line without a value, a rule line before any agent is named, or a `crawl-delay` line whose value is missing or not a number |
| RobotParser.LastLineDecides | src/main/java/com/wordpress/ncodes/RobotCommand.java:198-227 | after a prefix that completes, one more line throws exactly when that line is faulty |
| RobotParser.ParsedIsLowerCase | src/main/java/com/wordpress/ncodes/RobotCommand.java:192 | every agent key and every stored rule line of a parsed document is lower case |
| RobotParser.RulesForAreLines | src/main/java/com/wordpress/ncodes/RobotCommand.java:216-222 | the rules stored for an agent are rule lines of the document |
| RobotMatcher.Compile | src/main/java/com/wordpress/ncodes/RobotCommand.java:134-138 | one token per character: `*` and only `*` becomes a run, `.` and only `.` becomes any one character, and every other character, `?` included, is that literal character |
| RobotMatcher.Match | src/main/java/com/wordpress/ncodes/RobotCommand.java:138-139 | a pattern without a run matches only strings of its own length |
| RobotMatcher.Find | src/main/java/com/wordpress/ncodes/RobotCommand.java:139-151 | `find` searches every substring, so a whole-string match is found |
| RobotMatcher.FindExtends | src/main/java/com/wordpress/ncodes/RobotCommand.java:139 | a pattern found in a URL is found in every URL that contains that URL |
| RobotMatcher.CompileConcat | src/main/java/com/wordpress/ncodes/RobotCommand.java:134-138 | compiling a concatenation is concatenating the compiled parts |
| RobotMatcher.MatchConcat | src/main/java/com/wordpress/ncodes/RobotCommand.java:138-139 | a string matches a concatenated pattern exactly when it splits into consecutive pieces matching the parts |
| RobotMatcher.MatchLiteral | src/main/java/com/wordpress/ncodes/RobotCommand.java:138-139 | a value without `*` or `.` matches exactly itself; `?` is literal |
| RobotMatcher.FindLiteral | src/main/java/com/wordpress/ncodes/RobotCommand.java:139-144 | a literal value is found exactly when it occurs somewhere in the URL |
| RobotMatcher.FindEmpty | src/main/java/com/wordpress/ncodes/RobotCommand.java:144 | the empty pattern is found in every URL |
| RobotMatcher.TrailingStarIsRedundant | src/main/java/com/wordpress/ncodes/RobotCommand.java:134 | since the search is unanchored, a trailing `*` finds exactly what the value without it finds |
| RobotMatcher.InteriorStar | src/main/java/com/wordpress/ncodes/RobotCommand.java:134 | `a*b` with literal `a` and `b` is found exactly where `a` occurs and `b` occurs at or after its end, with no line terminator in between |
| RobotMatcher.InteriorDot | src/main/java/com/wordpress/ncodes/RobotCommand.java:138 | `a.b` with literal `a` and `b` is found exactly where `a` occurs, then one character other than a line terminator, then `b` |
| RobotMatcher.JudgeRule | src/main/java/com/wordpress/ncodes/RobotCommand.java:130-153 | the loop body's split, trim, compile and find give the rule's verdict |
| RobotMatcher.Verdict | src/main/java/com/wordpress/ncodes/RobotCommand.java:130-153 | a rule throws exactly when it has no value, and then out of bounds; a `disallow` rule that is found never allows |
| RobotMatcher.DirectiveHead | src/main/java/com/wordpress/ncodes/RobotCommand.java:130 | the directive read off a line that starts with neither whitespace nor a colon starts with the line's first character |
| RobotMatcher.DisallowIsNotAllow | src/main/java/com/wordpress/ncodes/RobotCommand.java:130-142 | a `disallow` line never reads as the `allow` directive |
| RobotMatcher.OneColonVerdict | src/main/java/com/wordpress/ncodes/RobotCommand.java:130-131 | for a one-colon rule, the directive and the value are the trimmed sides of the colon |
| RobotMatcher.LiteralRuleVerdict | src/main/java/com/wordpress/ncodes/RobotCommand.java:141-153 | `directive: pattern` with a literal pattern applies exactly to the URLs containing it; `allow` allows and any other directive disallows |
| RobotMatcher.StarRuleVerdict | src/main/java/com/wordpress/ncodes/RobotCommand.java:134 | `directive: pattern*` applies exactly where `directive: pattern` does |
| RobotMatcher.EmptyValueBlocksEverything | src/main/java/com/wordpress/ncodes/RobotCommand.java:131 | a value of only whitespace (`disallow: `, `disallow:\r`) applies to every URL |
| RobotMatcher.Matches | src/main/java/com/wordpress/ncodes/RobotCommand.java:123-157 | the loop's answer, or the exception it throws, is the fold of the rules' verdicts |
| RobotMatcher.ErrStaysErr | src/main/java/com/wordpress/ncodes/RobotCommand.java:127-131 | after a rule throws, the later rules do not matter |
| RobotMatcher.Decide | src/main/java/com/wordpress/ncodes/RobotCommand.java:125-156 | the loop throws only an error some verdict holds, and answers `false` only when some verdict found a disallowing rule |
| RobotMatcher.MatchesSpec | src/main/java/com/wordpress/ncodes/RobotCommand.java:123-157 | `matches` throws only out of bounds, and answers `false` only when some disallowing rule is found in the URL |
| RobotMatcher.NoneFoundAllows | src/main/java/com/wordpress/ncodes/RobotCommand.java:125-156 | with no malformed rule the loop ends normally, and with none found, the empty list included, the answer is `true` |
| RobotMatcher.LastFoundDecides | src/main/java/com/wordpress/ncodes/RobotCommand.java:141-153 | with no malformed rule, the last rule found decides |
| RobotMatcher.DecideFailsIff | src/main/java/com/wordpress/ncodes/RobotCommand.java:127-131 | the loop throws exactly when some verdict is an error |
| RobotMatcher.MatchesFailsIff | src/main/java/com/wordpress/ncodes/RobotCommand.java:131 | `matches` throws exactly when some rule has no value: no colon, nothing after its first colon, or only colons after it |
| RobotMatcher.NoMatchAllows | src/main/java/com/wordpress/ncodes/RobotCommand.java:123-157 | with every rule well formed and none found, the URL is allowed |
| RobotMatcher.LastMatchWins | src/main/java/com/wordpress/ncodes/RobotCommand.java:141-153 | with every rule well formed, the answer is `true` exactly when the last rule found has directive `allow` |
| RobotCommand.ParsedSupported | src/main/java/com/wordpress/ncodes/RobotCommand.java:216-222 | a table parsed from a document whose rules are in the modelled fragment has only such rules |
| RobotCommand.ParsedDecision | src/main/java/com/wordpress/ncodes/RobotCommand.java:89-111 | the answer from a parsed table, read off the document: the `*` and `ua` rules are those met while each was the last agent named |
| RobotCommand.AgentLookupIsCaseSensitive | src/main/java/com/wordpress/ncodes/RobotCommand.java:96 | an agent token with an upper-case letter is never a key of a parsed table and is answered from the `*` rules alone |
| RobotCommand.Evaluate | src/main/java/com/wordpress/ncodes/RobotCommand.java:84-113 | with neither entry the answer is `true`; an agent entry decides unless the `*` rules throw; otherwise the `*` rules decide; only the out-of-bounds error escapes; a URL is refused only when a disallowing rule of `*` or of the agent is found in it |
| RobotCommand.RobotCommand.constructor | src/main/java/com/wordpress/ncodes/RobotCommand.java:34-37 | empty cache, delay 0, nothing fetched |
| RobotCommand.RobotCommand.Parse | src/main/java/com/wordpress/ncodes/RobotCommand.java:185-232 | a completed parse stores its table under `host`, replacing that entry and no other, and leaves `crawlDelay` as the lines set it; a throw leaves the cache unchanged |
| RobotCommand.RobotCommand.ParseLine | src/main/java/com/wordpress/ncodes/RobotCommand.java:198-228 | one loop pass is one step of the parse, or the exception it throws |
| RobotCommand.RobotCommand.Cache | src/main/java/com/wordpress/ncodes/RobotCommand.java:164-168 | the same as `Parse` |
| RobotCommand.RobotCommand.IsAllowed | src/main/java/com/wordpress/ncodes/RobotCommand.java:82-114 | an uncached host is a null dereference; with neither entry the answer is `true`; a `ua` entry decides unless the `*` rules throw; otherwise the `*` rules decide; the cache is not written |
| RobotCommand.RobotCommand.Allow | src/main/java/com/wordpress/ncodes/RobotCommand.java:55-70 | a hit fetches nothing and changes nothing; a miss fetches once and then parses into the cache, or fails with the fetch or parse exception and leaves the cache as it was; any answer comes from the host's cached table |
| RobotCommand.RobotCommand.AllowTwice | src/main/java/com/wordpress/ncodes/RobotCommand.java:58-62 | after a first call that leaves the host cached, a second call fetches and parses nothing, changes neither field and answers the same; otherwise both calls fetch, both fail and the cache is as before |
| RobotExamples.EtcRuleVerdict | src/main/java/com/wordpress/ncodes/RobotCommand.java:66 | `disallow: /etc` disallows exactly the URLs in which `/etc` occurs |
| RobotExamples.DemoAllowsEt | src/main/java/com/wordpress/ncodes/RobotCommand.java:275 | `bot` with the rule `disallow: /etc` may fetch `http://www.google.com.ng/et` |
| RobotExamples.DemoBlocksEtc | src/main/java/com/wordpress/ncodes/RobotCommand.java:276 | `bot` may not fetch `http://www.google.com.ng/etc`, nor any URL that goes on from it |
| RobotExamples.DecidePair | src/main/java/com/wordpress/ncodes/RobotCommand.java:125-156 | over two rules, the second decides if found, else the first if found, else `true` |
| RobotExamples.LaterAllowWins | src/main/java/com/wordpress/ncodes/RobotCommand.java:141-153 | under `disallow: /a*` then `allow: /a/public`, any URL containing `/a/public` is allowed |
| RobotExamples.EarlierDisallowStands | src/main/java/com/wordpress/ncodes/RobotCommand.java:141-153 | under the same rules, `http://h/a/private` is disallowed |

## Left out

- `fetchRobotsTxt` and `constructRobotTxtURL` do network I/O through `java.net.URL`. The fetched text is a parameter of `Allow`, and `None` stands for the `IOException`.
- `getHost` relies on `java.net.URL` parsing. The host is an opaque string parameter, and a malformed URL is not modelled.
- Lines 64-67 of `allow` are a hard-coded mutation of the `www.google.com.ng` entry, kept for debugging. They throw a null dereference for any other first host and are not part of the algorithm.
- `main` is a demo driver. Its two calls go through `allow`, which parses the fetched Google robots.txt, replaces the `bot` list at lines 64-67 and then evaluates that document's `*` rules before `bot`'s. `DemoAllowsEt` and `DemoBlocksEtc` evaluate instead a table that holds only the `bot` entry, so they state what the rule `disallow: /etc` alone decides, not what `main` prints.
- Full Java regular expressions are not modelled. Patterns are literals plus `.` and `*`, and `?` is a literal, as the rewrite makes it. The other metacharacters (`\ ^ $ | + ( ) [ ] { }`) are excluded by a precondition.
- RobotMatcher.Matches: requires every rule value to stay within the pattern fragment above. A value outside it could make `Pattern.compile` throw or match differently.
- RobotCommand.RobotCommand.IsAllowed: requires the `*` and `ua` rules of the cached table to stay within the pattern fragment, for the same reason.
- RobotCommand.RobotCommand.Allow: requires the same of the cached table, and of every rule line in a document fetched on a miss.
- JavaText.ParseInt: digits follow the decimal-digit table of Unicode 15.0. Java releases built on other Unicode versions accept a slightly different set.
- JavaText.ParseInt: digits outside the Basic Multilingual Plane are not digits, because a Java `char` holds only half of such a character.
- `String.toLowerCase` is modelled on ASCII letters only. Other Unicode case mappings, including ones that change the string's length, are not.
- The object is not thread-safe, and concurrent calls are not modelled.
- The `fetches` field of the class is a ghost record of the fetches made. It exists only to state that a cache hit fetches nothing.
