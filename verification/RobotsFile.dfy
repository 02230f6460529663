/**
 Reading a robots.txt body into groups (internal/adapters/fetch/robots.go, parseRobots): every rule lands
 in the group of the nearest preceding run of User-agent lines, and what a printer writes is read back.
 */
module RobotsFile {
  import opened Wrappers
  import opened Text
  import opened Splitting
  import opened RobotsMatch

  // ---------------------------------------------------------------------------------------------
  // One line
  // ---------------------------------------------------------------------------------------------

  /** What a line says. Delay stands for a crawl-delay line, whatever its value. */
  datatype Directive = Agent(name: string) | RuleLine(rule: Rule) | Delay | Sitemap(url: string) | Nothing

  /** strings.ToLower on the letters a robots.txt field is written with. */
  function Lower(s: string): (r: string)
    ensures |r| == |s|
  {
    seq(|s|, i requires 0 <= i < |s| => if 'A' <= s[i] <= 'Z' then (s[i] as int + 32) as char else s[i])
  }

  /** strings.IndexByte. */
  function IndexOf(s: string, c: char): (i: int)
    ensures if c in s then 0 <= i < |s| && s[i] == c && c !in s[..i] else i == -1
  {
    if |s| == 0 then -1
    else if s[0] == c then 0
    else
      var rest := IndexOf(s[1..], c);
      assert s == [s[0]] + s[1..];
      assert rest >= 0 ==> s[..rest + 1] == [s[0]] + s[1..][..rest];
      if rest < 0 then -1 else rest + 1
  }

  function Uncommented(line: string): string {
    var i := IndexOf(line, '#');
    if i >= 0 then line[..i] else line
  }

  function WithoutReturn(line: string): string {
    if HasSuffix(line, "\r") then line[..|line| - 1] else line
  }

  function Named(field: string, value: string): Directive {
    if field == "user-agent" || field == "useragent" then Agent(Lower(value))
    else if field == "disallow" || field == "allow" then RuleLine(Rule(field == "allow", value))
    else if field == "crawl-delay" then Delay
    else if field == "sitemap" then Sitemap(value)
    else Nothing
  }

  function Classify(raw: string): Directive {
    var line := Trim(WithoutReturn(Uncommented(raw)));
    var colon := IndexOf(line, ':');
    if colon < 0 then Nothing else Named(Lower(Trim(line[..colon])), Trim(line[colon + 1..]))
  }

  function Directives(lines: seq<string>): (ds: seq<Directive>)
    ensures |ds| == |lines| && forall i | 0 <= i < |lines| :: ds[i] == Classify(lines[i])
  {
    seq(|lines|, i requires 0 <= i < |lines| => Classify(lines[i]))
  }

  // ---------------------------------------------------------------------------------------------
  // The grouping state
  // ---------------------------------------------------------------------------------------------

  /** The groups so far, the last one being current, and whether it has a rule-like line yet. */
  datatype Reading = Reading(groups: seq<Group>, sawRule: bool, sitemaps: seq<string>)

  const START := Reading([], false, [])

  function WithAgent(groups: seq<Group>, name: string): seq<Group>
    requires |groups| > 0
  {
    var n := |groups| - 1;
    if name == "" then groups else groups[n := groups[n].(agents := groups[n].agents + [name])]
  }

  function WithRule(groups: seq<Group>, rule: Rule): seq<Group>
    requires |groups| > 0
  {
    var n := |groups| - 1;
    if rule.pattern == "" then groups else groups[n := groups[n].(rules := groups[n].rules + [rule])]
  }

  function Read(r: Reading, d: Directive): Reading {
    match d
    case Agent(name) =>
      if |r.groups| == 0 || r.sawRule then Reading(WithAgent(r.groups + [Group([], [])], name), false, r.sitemaps)
      else r.(groups := WithAgent(r.groups, name))
    case RuleLine(rule) =>
      if |r.groups| == 0 then r else r.(groups := WithRule(r.groups, rule), sawRule := true)
    case Delay => if |r.groups| == 0 then r else r.(sawRule := true)
    case Sitemap(url) => r.(sitemaps := r.sitemaps + [url])
    case Nothing => r
  }

  function ReadAll(r: Reading, ds: seq<Directive>): Reading {
    if |ds| == 0 then r else Read(ReadAll(r, ds[..|ds| - 1]), ds[|ds| - 1])
  }

  lemma {:induction false} ReadAllInParts(r: Reading, ds: seq<Directive>, es: seq<Directive>)
    ensures ReadAll(r, ds + es) == ReadAll(ReadAll(r, ds), es)
  {
    if |es| == 0 {
      assert ds + es == ds;
    } else {
      var init := es[..|es| - 1];
      ReadAllInParts(r, ds, init);
      assert (ds + es)[..|ds + es| - 1] == ds + init;
    }
  }

  /** The switch of parseRobots on one field and value. */
  method ReadField(r: Reading, field: string, value: string) returns (r': Reading)
    ensures r' == Read(r, Named(field, value))
  {
    var groups, sawRule, sitemaps := r.groups, r.sawRule, r.sitemaps;
    var n := |groups| - 1;
    if field == "user-agent" || field == "useragent" {
      if |groups| == 0 || sawRule {
        groups := groups + [Group([], [])];
        n := |groups| - 1;
        sawRule := false;
      }
      if value != "" {
        groups := groups[n := groups[n].(agents := groups[n].agents + [Lower(value)])];
      }
    } else if field == "disallow" || field == "allow" {
      if |groups| == 0 { return r; }
      sawRule := true;
      if value != "" {
        groups := groups[n := groups[n].(rules := groups[n].rules + [Rule(field == "allow", value)])];
      }
    } else if field == "crawl-delay" {
      if |groups| == 0 { return r; }
      sawRule := true;
    } else if field == "sitemap" {
      sitemaps := sitemaps + [value];
    }
    r' := Reading(groups, sawRule, sitemaps);
  }

  /** The body of parseRobots's loop, for one line. */
  method ReadLine(r: Reading, raw: string) returns (r': Reading)
    ensures r' == Read(r, Classify(raw))
  {
    hide IndexOf, Trim, Lower, WithoutReturn, Named, Read;
    var line := raw;
    var hash := IndexOf(line, '#');
    if hash >= 0 { line := line[..hash]; }
    line := Trim(WithoutReturn(line));
    var colon := IndexOf(line, ':');
    if line == "" || colon < 0 {
      NothingIsRead(r);
      return r;
    }
    r' := ReadField(r, Lower(Trim(line[..colon])), Trim(line[colon + 1..]));
  }

  /** parseRobots: a pass over the lines that extends the current group or starts another. */
  method ParseRobots(body: string) returns (r: Reading)
    ensures r == ReadAll(START, Directives(Split(body, '\n')))
  {
    hide Split, Classify, Read;
    r := START;
    var lines := Split(body, '\n');
    for i := 0 to |lines|
      invariant r == ReadAll(START, Directives(lines)[..i])
    {
      assert Directives(lines)[..i + 1][..i] == Directives(lines)[..i];
      r := ReadLine(r, lines[i]);
    }
    assert Directives(lines)[..|lines|] == Directives(lines);
  }

  lemma NothingIsRead(r: Reading)
    ensures Read(r, Nothing) == r
  {
  }

  // ---------------------------------------------------------------------------------------------
  // Which group a line belongs to
  // ---------------------------------------------------------------------------------------------

  predicate RuleLike(d: Directive) { d.RuleLine? || d.Delay? }

  /** No rule and no crawl-delay strictly between two positions. */
  predicate Unruled(ds: seq<Directive>, from: nat, to: nat)
    requires to <= |ds|
  {
    forall k | from < k < to :: !RuleLike(ds[k])
  }

  /** An agent line starts a group unless another agent line precedes it with no rule in between. */
  predicate Starts(ds: seq<Directive>, p: nat)
    requires p < |ds|
  {
    ds[p].Agent? && !exists q: nat | q < p :: ds[q].Agent? && Unruled(ds, q, p)
  }

  /** How many groups the first n lines start: the current group is the last of them. */
  function Started(ds: seq<Directive>, n: nat): (g: nat)
    requires n <= |ds|
    ensures g <= n
  {
    if n == 0 then 0 else Started(ds, n - 1) + if Starts(ds, n - 1) then 1 else 0
  }

  /** The group, counted from 1, a line belongs to; 0 for a line before any agent. */
  function GroupOf(ds: seq<Directive>, p: nat): nat
    requires p < |ds|
  {
    Started(ds, p + 1)
  }

  /** The names on the agent lines of group g among the first n lines, in order. */
  function AgentsOf(ds: seq<Directive>, g: nat, n: nat): seq<string>
    requires n <= |ds|
  {
    if n == 0 then []
    else
      var d := ds[n - 1];
      AgentsOf(ds, g, n - 1) + if d.Agent? && GroupOf(ds, n - 1) == g && d.name != "" then [d.name] else []
  }

  /** The rules of group g among the first n lines, in order; a line without a pattern holds none. */
  function RulesOf(ds: seq<Directive>, g: nat, n: nat): seq<Rule>
    requires n <= |ds|
  {
    if n == 0 then []
    else
      var d := ds[n - 1];
      RulesOf(ds, g, n - 1) + if d.RuleLine? && GroupOf(ds, n - 1) == g && d.rule.pattern != "" then [d.rule] else []
  }

  /** Nothing is filed under a group before it starts. */
  lemma {:induction false} NothingAhead(ds: seq<Directive>, g: nat, n: nat)
    requires n <= |ds| && g > Started(ds, n)
    ensures AgentsOf(ds, g, n) == [] && RulesOf(ds, g, n) == []
  {
    hide Starts;
    if n > 0 { NothingAhead(ds, g, n - 1); }
  }

  lemma {:induction false} SawRuleMeans(ds: seq<Directive>, n: nat)
    requires n <= |ds|
    ensures |ReadAll(START, ds[..n]).groups| == 0 <==> forall q | 0 <= q < n :: !ds[q].Agent?
    ensures var r := ReadAll(START, ds[..n]);
      |r.groups| > 0 ==> (r.sawRule <==> !exists q: nat | q < n :: ds[q].Agent? && Unruled(ds, q, n))
    ensures ReadAll(START, ds[..n]).sawRule ==> |ReadAll(START, ds[..n]).groups| > 0
  {
    if n > 0 {
      SawRuleMeans(ds, n - 1);
      assert ds[..n][..n - 1] == ds[..n - 1];
      var before, after := ReadAll(START, ds[..n - 1]), ReadAll(START, ds[..n]);
      assert after == Read(before, ds[n - 1]);
      if q: nat :| q < n - 1 && ds[q].Agent? && Unruled(ds, q, n - 1) {
        assert !RuleLike(ds[n - 1]) ==> Unruled(ds, q, n);
      }
      if ds[n - 1].Agent? { assert Unruled(ds, n - 1, n); }
      if q: nat :| q < n && ds[q].Agent? && Unruled(ds, q, n) {
        assert q < n - 1 ==> Unruled(ds, q, n - 1) && !RuleLike(ds[n - 1]);
      }
    }
  }

  /** An agent line starts a group exactly when the reading does. */
  lemma StartsWhenRead(ds: seq<Directive>, p: nat)
    requires p < |ds| && ds[p].Agent?
    ensures var r := ReadAll(START, ds[..p]); Starts(ds, p) <==> |r.groups| == 0 || r.sawRule
  {
    SawRuleMeans(ds, p);
  }

  /** What the first n lines put into group g. */
  function Filed(ds: seq<Directive>, g: nat, n: nat): Group
    requires n <= |ds|
  {
    Group(AgentsOf(ds, g, n), RulesOf(ds, g, n))
  }

  /** One more line adds to one group at most. */
  function WithLine(g: Group, d: Directive): Group {
    if d.Agent? && d.name != "" then g.(agents := g.agents + [d.name])
    else if d.RuleLine? && d.rule.pattern != "" then g.(rules := g.rules + [d.rule])
    else g
  }

  lemma FiledNext(ds: seq<Directive>, g: nat, n: nat)
    requires n < |ds|
    ensures Filed(ds, g, n + 1) == if g == GroupOf(ds, n) then WithLine(Filed(ds, g, n), ds[n]) else Filed(ds, g, n)
  {
    hide Started;
  }

  /** Reading a line, once the groups are known to be there: a new group first, if one starts; then the line. */
  lemma ReadNext(r: Reading, d: Directive, starts: bool)
    requires starts == (d.Agent? && (|r.groups| == 0 || r.sawRule))
    ensures var groups := if starts then r.groups + [Group([], [])] else r.groups;
      Read(r, d).groups == if |groups| == 0 then groups else groups[|groups| - 1 := WithLine(groups[|groups| - 1], d)]
  {
  }

  /**
   What a body is read into: as many groups as are started, each holding exactly the names and the
   rules of its own lines, in order.
   */
  lemma {:induction false} GroupsHoldTheirLines(ds: seq<Directive>, n: nat)
    requires n <= |ds|
    ensures var r := ReadAll(START, ds[..n]);
      && |r.groups| == Started(ds, n)
      && forall g | 0 <= g < |r.groups| :: r.groups[g] == Filed(ds, g + 1, n)
  {
    hide Starts, Read, WithLine, Filed;
    if n > 0 {
      GroupsHoldTheirLines(ds, n - 1);
      assert ds[..n][..n - 1] == ds[..n - 1];
      var r, d, s := ReadAll(START, ds[..n - 1]), ds[n - 1], Starts(ds, n - 1);
      if d.Agent? { StartsWhenRead(ds, n - 1); } else { OnlyAgentsStart(ds, n - 1); }
      ReadNext(r, d, s);
      NewGroupIsEmpty(ds, n - 1);
      forall g | 0 <= g < Started(ds, n) ensures ReadAll(START, ds[..n]).groups[g] == Filed(ds, g + 1, n) {
        FiledNext(ds, g + 1, n - 1);
      }
    }
  }

  lemma NewGroupIsEmpty(ds: seq<Directive>, n: nat)
    requires n <= |ds|
    ensures Filed(ds, Started(ds, n) + 1, n) == Group([], [])
  {
    NothingAhead(ds, Started(ds, n) + 1, n);
  }

  lemma OnlyAgentsStart(ds: seq<Directive>, p: nat)
    requires p < |ds| && !ds[p].Agent?
    ensures !Starts(ds, p)
  {
  }

  /** Between two positions with no agent line, no group starts. */
  lemma {:induction false} NoAgentNoStart(ds: seq<Directive>, from: nat, to: nat)
    requires from <= to <= |ds| && forall k | from <= k < to :: !ds[k].Agent?
    ensures Started(ds, to) == Started(ds, from)
  {
    if from < to { NoAgentNoStart(ds, from, to - 1); }
  }

  lemma {:induction false} StartedGrows(ds: seq<Directive>, from: nat, to: nat)
    requires from <= to <= |ds|
    ensures Started(ds, from) <= Started(ds, to)
  {
    hide Starts;
    if from < to { StartedGrows(ds, from, to - 1); }
  }

  /** A line belongs to the group of the nearest agent line before it, and to none when there is none. */
  lemma NearestAgentDecides(ds: seq<Directive>, p: nat, a: nat)
    requires p < |ds| && !ds[p].Agent?
    ensures a < p && ds[a].Agent? && (forall k | a < k < p :: !ds[k].Agent?) ==> GroupOf(ds, p) == GroupOf(ds, a) > 0
    ensures (forall k | 0 <= k < p :: !ds[k].Agent?) ==> GroupOf(ds, p) == 0
  {
    if a < p && ds[a].Agent? && (forall k | a < k < p :: !ds[k].Agent?) {
      NoAgentNoStart(ds, a + 1, p + 1);
      AgentsAreGrouped(ds, a);
    }
    if forall k | 0 <= k < p :: !ds[k].Agent? { NoAgentNoStart(ds, 0, p + 1); }
  }

  lemma {:induction false} AgentsAreGrouped(ds: seq<Directive>, a: nat)
    requires a < |ds| && ds[a].Agent?
    ensures GroupOf(ds, a) > 0
  {
    if !Starts(ds, a) {
      var q: nat :| q < a && ds[q].Agent? && Unruled(ds, q, a);
      AgentsAreGrouped(ds, q);
      StartedGrows(ds, q + 1, a + 1);
    }
  }

  /** Two agent lines share a group exactly when no rule or crawl-delay stands between them. */
  lemma {:induction false} AgentsShareGroupIffUnruled(ds: seq<Directive>, p: nat, q: nat)
    requires p < q < |ds| && ds[p].Agent? && ds[q].Agent?
    ensures GroupOf(ds, p) == GroupOf(ds, q) <==> Unruled(ds, p, q)
    decreases q
  {
    if Unruled(ds, p, q) {
      UnruledStartsNone(ds, p, q + 1);
    } else {
      var k :| p < k < q && RuleLike(ds[k]);
      SomeAgentStarts(ds, k, q);
      StartedGrows(ds, p + 1, k + 1);
    }
  }

  /** After an agent line, with no rule since, nothing starts a group. */
  lemma {:induction false} UnruledStartsNone(ds: seq<Directive>, p: nat, to: nat)
    requires p < to <= |ds| && ds[p].Agent? && Unruled(ds, p, to)
    ensures Started(ds, to) == Started(ds, p + 1)
  {
    if p + 1 < to {
      UnruledStartsNone(ds, p, to - 1);
      assert Unruled(ds, p, to - 1);
      assert !Starts(ds, to - 1);
    }
  }

  /** Among the agent lines from a rule on up to an agent line, one starts a group. */
  lemma {:induction false} SomeAgentStarts(ds: seq<Directive>, k: nat, q: nat)
    requires k < q < |ds| && RuleLike(ds[k]) && ds[q].Agent?
    ensures Started(ds, k + 1) < Started(ds, q + 1)
    decreases q
  {
    StartedGrows(ds, k + 1, q);
    if !Starts(ds, q) {
      var a: nat :| a < q && ds[a].Agent? && Unruled(ds, a, q);
      assert k < a;
      SomeAgentStarts(ds, k, a);
      StartedGrows(ds, a + 1, q + 1);
    }
  }

  /** The addresses on the sitemap lines, in order, whatever group they stand in. */
  function SitemapsOf(ds: seq<Directive>): seq<string> {
    if |ds| == 0 then [] else SitemapsOf(ds[..|ds| - 1]) + if ds[|ds| - 1].Sitemap? then [ds[|ds| - 1].url] else []
  }

  lemma {:induction false} SitemapsAreKept(ds: seq<Directive>)
    ensures ReadAll(START, ds).sitemaps == SitemapsOf(ds)
  {
    if |ds| > 0 { SitemapsAreKept(ds[..|ds| - 1]); }
  }

  // ---------------------------------------------------------------------------------------------
  // Printing and reading back
  // ---------------------------------------------------------------------------------------------

  /** A value a line can carry unchanged: not empty, trimmed, on one line, and not a comment. */
  predicate Printable(v: string) {
    v != "" && !IsSpace(v[0]) && !IsSpace(v[|v| - 1]) && '\n' !in v && '#' !in v
  }

  /** A group a file can hold: at least one agent, in lower case, and proper patterns. */
  predicate Canonical(g: Group) {
    && |g.agents| > 0
    && (forall a | a in g.agents :: Printable(a) && Lower(a) == a)
    && (forall r | r in g.rules :: Printable(r.pattern))
  }

  function AgentLines(agents: seq<string>): (lines: seq<string>)
    ensures |lines| == |agents|
  {
    seq(|agents|, i requires 0 <= i < |agents| => "User-agent" + ": " + agents[i])
  }

  function RuleText(r: Rule): string {
    (if r.allow then "Allow" else "Disallow") + ": " + r.pattern
  }

  function RuleLines(rules: seq<Rule>): (lines: seq<string>)
    ensures |lines| == |rules|
  {
    seq(|rules|, i requires 0 <= i < |rules| => RuleText(rules[i]))
  }

  /** The lines of a group; one without rules gets a Disallow that disallows nothing. */
  function GroupLines(g: Group): seq<string> {
    AgentLines(g.agents) + if |g.rules| == 0 then ["Disallow:"] else RuleLines(g.rules)
  }

  function FileLines(groups: seq<Group>): seq<string> {
    if |groups| == 0 then [] else FileLines(groups[..|groups| - 1]) + GroupLines(groups[|groups| - 1])
  }

  /** Each line, ended. */
  function Lined(lines: seq<string>): string {
    if |lines| == 0 then "" else lines[0] + "\n" + Lined(lines[1..])
  }

  function Print(groups: seq<Group>): string { Lined(FileLines(groups)) }

  lemma {:induction false} LinesAreRecovered(lines: seq<string>)
    requires forall l | l in lines :: '\n' !in l
    ensures Split(Lined(lines), '\n') == lines + [""]
  {
    if |lines| > 0 {
      LinesAreRecovered(lines[1..]);
      SplitLine(lines[0], Lined(lines[1..]), '\n');
      assert lines == [lines[0]] + lines[1..];
    }
  }

  lemma TrimmedStays(v: string)
    requires v == "" || (!IsSpace(v[0]) && !IsSpace(v[|v| - 1]))
    ensures Trim(v) == v && Trim(" " + v) == v
  {
    assert (" " + v)[1..] == v;
  }

  /** A field name as it is printed. */
  predicate FieldName(name: string) {
    name != "" && !IsSpace(name[0]) && !IsSpace(name[|name| - 1]) && ':' !in name && '#' !in name && '\n' !in name
  }

  /** A line of a name, a colon and the rest is classified by the name and the trimmed rest. */
  lemma ClassifyingField(name: string, rest: string)
    requires FieldName(name) && '#' !in rest && (rest == "" || !IsSpace(rest[|rest| - 1]))
    ensures Classify(name + ":" + rest) == Named(Lower(name), Trim(rest))
  {
    hide Trim, IndexOf, IsSpace, Lower, Named;
    var line := name + ":" + rest;
    ColonIsFound(name, rest);
    CleanLineStays(line);
    TrimmedStays(name);
  }

  lemma CleanLineStays(line: string)
    requires '#' !in line && line != "" && !IsSpace(line[0]) && !IsSpace(line[|line| - 1])
    ensures Trim(WithoutReturn(Uncommented(line))) == line
  {
    assert IsSpace('\r');
    hide IndexOf, Trim, IsSpace;
    EndsInChar(line, '\r');
    TrimmedStays(line);
  }

  lemma ColonIsFound(name: string, rest: string)
    requires FieldName(name) && '#' !in rest && (rest == "" || !IsSpace(rest[|rest| - 1]))
    ensures var line := name + ":" + rest;
      && IndexOf(line, ':') == |name| && line[..|name|] == name && line[|name| + 1..] == rest
      && '#' !in line && !IsSpace(line[0]) && !IsSpace(line[|line| - 1])
  {
    hide IndexOf;
    var line := name + ":" + rest;
    assert line[..|name|] == name && line[|name| + 1..] == rest;
    FirstIndexIs(line, ':', |name|);
    assert !IsSpace(':');
  }

  lemma {:induction false} FirstIndexIs(s: string, c: char, n: nat)
    requires n < |s| && s[n] == c && c !in s[..n]
    ensures IndexOf(s, c) == n
  {
    if n > 0 {
      assert s[..n] == [s[0]] + s[1..][..n - 1];
      FirstIndexIs(s[1..], c, n - 1);
    }
  }

  lemma SpacedValue(value: string)
    requires Printable(value)
    ensures var rest := " " + value;
      '#' !in rest && '\n' !in rest && !IsSpace(rest[|rest| - 1]) && Trim(rest) == value
  {
    TrimmedStays(value);
  }

  lemma ClassifyingValue(name: string, value: string)
    requires FieldName(name) && Printable(value)
    ensures Classify(name + ": " + value) == Named(Lower(name), value) && '\n' !in name + ": " + value
  {
    hide Trim, IndexOf, IsSpace, Lower, Named, Classify;
    SpacedValue(value);
    ClassifyingField(name, " " + value);
    assert name + ":" + (" " + value) == name + ": " + value;
  }

  /** The three field names a group is printed with. */
  lemma PrintedNames()
    ensures FieldName("User-agent") && Lower("User-agent") == "user-agent"
    ensures FieldName("Disallow") && Lower("Disallow") == "disallow"
    ensures FieldName("Allow") && Lower("Allow") == "allow"
  {
  }

  function Agents(names: seq<string>): (ds: seq<Directive>)
    ensures |ds| == |names|
  {
    seq(|names|, i requires 0 <= i < |names| => Agent(names[i]))
  }

  function RulesAsLines(rules: seq<Rule>): (ds: seq<Directive>)
    ensures |ds| == |rules|
  {
    seq(|rules|, i requires 0 <= i < |rules| => RuleLine(rules[i]))
  }

  function GroupDirectives(g: Group): seq<Directive> {
    Agents(g.agents) + if |g.rules| == 0 then [RuleLine(Rule(false, ""))] else RulesAsLines(g.rules)
  }

  lemma AgentLineClassifies(name: string)
    requires Printable(name) && Lower(name) == name
    ensures Classify("User-agent" + ": " + name) == Agent(name) && '\n' !in "User-agent" + ": " + name
  {
    hide Classify, Lower, Printable, FieldName;
    PrintedNames();
    ClassifyingValue("User-agent", name);
  }

  lemma RuleTextClassifies(r: Rule)
    requires Printable(r.pattern)
    ensures Classify(RuleText(r)) == RuleLine(r) && '\n' !in RuleText(r)
  {
    hide Classify, Lower, Printable, FieldName;
    PrintedNames();
    ClassifyingValue(if r.allow then "Allow" else "Disallow", r.pattern);
  }

  lemma EmptyRuleClassifies()
    ensures Classify("Disallow:") == RuleLine(Rule(false, "")) && '\n' !in "Disallow:"
  {
    hide Classify, Lower, FieldName;
    PrintedNames();
    ClassifyingField("Disallow", "");
    TrimmedStays("");
    assert "Disallow" + ":" + "" == "Disallow:";
  }

  lemma GroupLinesClassify(g: Group)
    requires Canonical(g)
    ensures Directives(GroupLines(g)) == GroupDirectives(g)
    ensures forall l | l in GroupLines(g) :: '\n' !in l
  {
    hide Classify, Printable, RuleText, Lower;
    var lines, n := GroupLines(g), |g.agents|;
    EmptyRuleClassifies();
    forall i | 0 <= i < |lines| ensures Classify(lines[i]) == GroupDirectives(g)[i] && '\n' !in lines[i] {
      if i < n {
        assert g.agents[i] in g.agents;
        AgentLineClassifies(g.agents[i]);
      } else if |g.rules| > 0 {
        assert g.rules[i - n] in g.rules;
        RuleTextClassifies(g.rules[i - n]);
      }
    }
  }

  lemma ReadingAgent(r: Reading, names: seq<string>, name: string)
    requires name != ""
    ensures |r.groups| == 0 || r.sawRule ==>
      Read(r, Agent(name)) == Reading(r.groups + [Group([name], [])], false, r.sitemaps)
    ensures Read(Reading(r.groups + [Group(names, [])], false, r.sitemaps), Agent(name))
      == Reading(r.groups + [Group(names + [name], [])], false, r.sitemaps)
  {
    var n := |r.groups|;
    var none: seq<string> := [];
    assert none + [name] == [name];
    assert (r.groups + [Group(names, [])])[n := Group(names + [name], [])] == r.groups + [Group(names + [name], [])];
    assert (r.groups + [Group([], [])])[n := Group([name], [])] == r.groups + [Group([name], [])];
  }

  lemma {:induction false} ReadingAgents(r: Reading, names: seq<string>)
    requires |names| > 0 && (|r.groups| == 0 || r.sawRule) && forall a | a in names :: a != ""
    ensures ReadAll(r, Agents(names)) == Reading(r.groups + [Group(names, [])], false, r.sitemaps)
  {
    hide Read;
    var init, last := names[..|names| - 1], names[|names| - 1];
    assert names == init + [last];
    assert Agents(names)[..|names| - 1] == Agents(init);
    assert forall a | a in init :: a in names;
    assert last in names;
    ReadingAgent(r, init, last);
    if |init| > 0 { ReadingAgents(r, init); } else { assert names == [last]; }
  }

  lemma {:induction false} ReadingRules(r: Reading, rules: seq<Rule>)
    requires |rules| > 0 && |r.groups| > 0 && forall rule | rule in rules :: rule.pattern != ""
    ensures var n := |r.groups| - 1;
      ReadAll(r, RulesAsLines(rules))
        == Reading(r.groups[n := r.groups[n].(rules := r.groups[n].rules + rules)], true, r.sitemaps)
  {
    var init, last := rules[..|rules| - 1], rules[|rules| - 1];
    assert rules == init + [last];
    assert RulesAsLines(rules)[..|rules| - 1] == RulesAsLines(init);
    assert forall rule | rule in init :: rule in rules;
    assert last in rules;
    if |init| > 0 {
      ReadingRules(r, init);
      var n := |r.groups| - 1;
      assert r.groups[n].rules + init + [last] == r.groups[n].rules + rules;
    } else {
      assert rules == [last];
    }
  }

  /** The lines of a canonical group, read when a new group is due, add exactly that group. */
  lemma ReadingGroup(r: Reading, g: Group)
    requires Canonical(g) && (|r.groups| == 0 || r.sawRule)
    ensures ReadAll(r, GroupDirectives(g)) == Reading(r.groups + [g], true, r.sitemaps)
  {
    hide Read;
    ReadingAgents(r, g.agents);
    var mid := Reading(r.groups + [Group(g.agents, [])], false, r.sitemaps);
    if |g.rules| == 0 {
      ReadAllInParts(r, Agents(g.agents), [RuleLine(Rule(false, ""))]);
      ReadingEmptyRule(mid);
    } else {
      ReadAllInParts(r, Agents(g.agents), RulesAsLines(g.rules));
      ReadingRules(mid, g.rules);
      var n := |mid.groups| - 1;
      assert mid.groups[n].rules + g.rules == g.rules;
      assert mid.groups[n := mid.groups[n].(rules := mid.groups[n].rules + g.rules)] == r.groups + [g];
    }
  }

  lemma ReadingEmptyRule(r: Reading)
    requires |r.groups| > 0
    ensures ReadAll(r, [RuleLine(Rule(false, ""))]) == r.(sawRule := true)
  {
    var d := RuleLine(Rule(false, ""));
    assert [d][..0] == [];
  }

  lemma NothingRead(r: Reading)
    ensures ReadAll(r, []) == r
  {
  }

  lemma {:induction false} ReadingFile(groups: seq<Group>)
    requires forall g | g in groups :: Canonical(g)
    ensures ReadAll(START, Directives(FileLines(groups))) == Reading(groups, |groups| > 0, [])
    ensures forall l | l in FileLines(groups) :: '\n' !in l
  {
    hide Canonical, Read, GroupLines, GroupDirectives, Classify, ReadAll;
    if |groups| == 0 {
      assert ReadAll(START, []) == START by { NothingRead(START); }
      assert Directives([]) == [];
    } else {
      var init, g := groups[..|groups| - 1], groups[|groups| - 1];
      assert groups == init + [g];
      ReadingFile(init);
      assert g in groups;
      GroupLinesClassify(g);
      assert Directives(FileLines(init) + GroupLines(g)) == Directives(FileLines(init)) + GroupDirectives(g);
      ReadAllInParts(START, Directives(FileLines(init)), GroupDirectives(g));
      ReadingGroup(Reading(init, |init| > 0, []), g);
    }
  }

  /** Reading what was printed gives the same groups back, in order, and no sitemaps. */
  lemma PrintedFilesAreReadBack(groups: seq<Group>)
    requires forall g | g in groups :: Canonical(g)
    ensures ReadAll(START, Directives(Split(Print(groups), '\n'))) == Reading(groups, |groups| > 0, [])
  {
    hide Canonical, Read, Split;
    ReadingFile(groups);
    LinesAreRecovered(FileLines(groups));
    assert Directives(FileLines(groups) + [""]) == Directives(FileLines(groups)) + [Nothing];
    ReadAllInParts(START, Directives(FileLines(groups)), [Nothing]);
    ReadingNothing(Reading(groups, |groups| > 0, []));
  }

  lemma ReadingNothing(r: Reading)
    ensures ReadAll(r, [Nothing]) == r
  {
    assert [Nothing][..0] == [];
  }
}
