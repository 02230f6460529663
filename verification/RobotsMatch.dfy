/**
 Matching a path against robots.txt rules (internal/adapters/fetch/robots.go): the greedy wildcard scan
 finds a match exactly when there is one, and the longest matching rule decides, Allow winning a tie
 (RFC 9309, sections 2.2.2 and 2.2.3). Strings are the bytes the code compares.
 */
module RobotsMatch {
  import opened Wrappers
  import opened Splitting

  // ---------------------------------------------------------------------------------------------
  // What a pattern means
  // ---------------------------------------------------------------------------------------------

  /** How many "*" a pattern holds. */
  function Stars(body: string): nat {
    if |body| == 0 then 0 else (if body[0] == '*' then 1 else 0) + Stars(body[1..])
  }

  /** The pattern with its "*", from the left, replaced by the given strings. */
  function Fill(body: string, fills: seq<string>): string
    requires |fills| == Stars(body)
  {
    if |body| == 0 then ""
    else if body[0] == '*' then fills[0] + Fill(body[1..], fills[1..])
    else [body[0]] + Fill(body[1..], fills)
  }

  predicate Anchored(pattern: string) {
    |pattern| > 0 && pattern[|pattern| - 1] == '$'
  }

  function Body(pattern: string): string {
    if Anchored(pattern) then pattern[..|pattern| - 1] else pattern
  }

  /**
   A non-empty pattern matches when some choice of strings for its "*" makes it a prefix of the path,
   or the whole path when the pattern ends in "$".
   */
  ghost predicate Matches(pattern: string, path: string) {
    && pattern != ""
    && exists fills: seq<string> | |fills| == Stars(Body(pattern)) ::
         if Anchored(pattern) then Fill(Body(pattern), fills) == path else Fill(Body(pattern), fills) <= path
  }

  predicate Literal(s: string) { '*' !in s && (s == "" || s[|s| - 1] != '$') }

  lemma {:induction false} FillingLiteral(s: string, rest: string, fills: seq<string>)
    requires '*' !in s && |fills| == Stars(rest)
    ensures Stars(s + rest) == Stars(rest) && Fill(s + rest, fills) == s + Fill(rest, fills)
  {
    if |s| > 0 {
      assert (s + rest)[1..] == s[1..] + rest && (s + rest)[0] == s[0];
      FillingLiteral(s[1..], rest, fills);
      assert s == [s[0]] + s[1..];
    } else {
      assert s + rest == rest;
    }
  }

  /**
   Patterns with at most one star, without quantifying over what it stands for: a literal matches what it starts,
   and with "$" only itself; a star lets anything stand between, or at the end.
   */
  lemma SimplePatterns(s: string, t: string, path: string)
    requires Literal(s) && Literal(t)
    ensures s != "" ==> (Matches(s, path) <==> s <= path)
    ensures Matches(s + "$", path) <==> path == s
    ensures t != "" ==> (Matches(s + "*" + t, path) <==> s <= path && exists k :: |s| <= k <= |path| && t <= path[k..])
    ensures Matches(s + "*", path) <==> s <= path
    ensures Matches(s + "*" + t + "$", path) <==> |path| >= |s| + |t| && s <= path && path[|path| - |t|..] == t
  {
    hide Matches, Fill, Stars;
    LiteralMatches(s, path);
    var open, bare, shut := s + "*" + t, s + "*", s + "*" + t + "$";
    assert Body(shut) == s + "*" + t;
    OneStar(shut, s, t, path);
    JoinsWhole(s, t, path);
    assert bare == s + "*" + "" && !Anchored(bare);
    OneStar(bare, s, "", path);
    JoinsSomewhere(s, "", path);
    assert s <= path ==> "" <= path[|s|..];
    if t != "" {
      assert open[|open| - 1] == t[|t| - 1];
      OneStar(open, s, t, path);
      JoinsSomewhere(s, t, path);
    }
  }

  lemma LiteralMatches(s: string, path: string)
    requires Literal(s)
    ensures s != "" ==> (Matches(s, path) <==> s <= path)
    ensures Matches(s + "$", path) <==> path == s
  {
    FillingLiteral(s, "", []);
    assert s + "" == s && (s + "$")[..|s|] == s && Body(s + "$") == s && Body(s) == s;
    forall fills: seq<string> | |fills| == Stars(s) ensures fills == [] && Fill(s, fills) == s {}
    var none: seq<string> := [];
    assert |none| == Stars(s) && Fill(s, none) == s;
  }

  lemma FillingStar(s: string, t: string, f: string)
    requires '*' !in s && '*' !in t
    ensures Stars(s + "*" + t) == 1 && Fill(s + "*" + t, [f]) == s + f + t
  {
    FillingLiteral(t, "", []);
    assert t + "" == t;
    var rest := "*" + t;
    assert rest[1..] == t && Stars(rest) == 1;
    var fills := [f];
    assert fills[1..] == [];
    FillingLiteral(s, rest, fills);
    assert Fill(rest, fills) == f + t;
    assert s + rest == s + "*" + t && s + (f + t) == s + f + t;
  }

  /** A pattern with one star matches by one string in its place. */
  lemma OneStar(p: string, s: string, t: string, path: string)
    requires '*' !in s && '*' !in t && p != "" && Body(p) == s + "*" + t
    ensures Matches(p, path) <==> exists f: string :: Joins(s, f, t, path, Anchored(p))
  {
    var body := s + "*" + t;
    forall fills: seq<string> | |fills| == Stars(body)
      ensures |fills| == 1 && Fill(body, fills) == s + fills[0] + t
    {
      FillingStar(s, t, "");
      FillingStar(s, t, fills[0]);
      assert fills == [fills[0]];
    }
    if f: string :| Joins(s, f, t, path, Anchored(p)) {
      FillingStar(s, t, f);
      assert |[f]| == Stars(body);
    }
    if Matches(p, path) {
      var fills: seq<string> :| |fills| == Stars(body) &&
        if Anchored(p) then Fill(body, fills) == path else Fill(body, fills) <= path;
      assert Joins(s, fills[0], t, path, Anchored(p));
    }
  }

  predicate Joins(s: string, f: string, t: string, path: string, whole: bool) {
    if whole then s + f + t == path else s + f + t <= path
  }

  lemma JoinsSomewhere(s: string, t: string, path: string)
    ensures (exists f: string :: Joins(s, f, t, path, false)) <==> s <= path && exists k :: |s| <= k <= |path| && t <= path[k..]
  {
    if f: string :| Joins(s, f, t, path, false) {
      var k := |s| + |f|;
      var all := s + f + t;
      assert all == path[..|all|] && all[..|s|] == s && all[k..] == t;
      assert path[..|s|] == all[..|s|] && path[k..][..|t|] == all[k..];
    }
    if s <= path {
      if k :| |s| <= k <= |path| && t <= path[k..] {
        assert path == s + path[|s|..k] + path[k..];
        assert Joins(s, path[|s|..k], t, path, false);
      }
    }
  }

  lemma JoinsWhole(s: string, t: string, path: string)
    ensures (exists f: string :: Joins(s, f, t, path, true)) <==> |path| >= |s| + |t| && s <= path && path[|path| - |t|..] == t
  {
    if f: string :| Joins(s, f, t, path, true) {
      var all := s + f + t;
      assert all[..|s|] == s && all[|all| - |t|..] == t;
    }
    if |path| >= |s| + |t| && s <= path && path[|path| - |t|..] == t {
      var f := path[|s|..|path| - |t|];
      assert path == s + f + t;
      assert Joins(s, f, t, path, true);
    }
  }

  // ---------------------------------------------------------------------------------------------
  // The same, segment by segment
  // ---------------------------------------------------------------------------------------------

  predicate OccursAt(path: string, k: int, seg: string) {
    0 <= k && k + |seg| <= |path| && path[k..k + |seg|] == seg
  }

  /** Every segment, each after a gap of any length, can be laid out along the path. */
  ghost predicate Tail(segs: seq<string>, path: string, anchored: bool)
    decreases |segs|
  {
    if |segs| == 0 then !anchored || path == ""
    else exists k | 0 <= k <= |path| :: OccursAt(path, k, segs[0]) && Tail(segs[1..], path[k + |segs[0]|..], anchored)
  }

  /** The first segment starts the path and the others follow it. */
  ghost predicate Laid(segs: seq<string>, path: string, anchored: bool)
    requires |segs| > 0
  {
    segs[0] <= path && Tail(segs[1..], path[|segs[0]|..], anchored)
  }

  /** Gaps and segments, alternating. */
  function Weave(segs: seq<string>, fills: seq<string>): string
    requires |fills| == |segs|
  {
    if |segs| == 0 then "" else fills[0] + segs[0] + Weave(segs[1..], fills[1..])
  }

  lemma {:induction false} StarsSeparateSegments(body: string)
    ensures |Split(body, '*')| == Stars(body) + 1
  {
    if |body| > 0 { StarsSeparateSegments(body[1..]); }
  }

  lemma {:induction false} FillingIsWeaving(body: string, fills: seq<string>)
    requires |fills| == Stars(body)
    ensures |Split(body, '*')| == |fills| + 1
    ensures Fill(body, fills) == Split(body, '*')[0] + Weave(Split(body, '*')[1..], fills)
  {
    StarsSeparateSegments(body);
    if |body| > 0 {
      var rest := Split(body[1..], '*');
      if body[0] == '*' {
        FillingIsWeaving(body[1..], fills[1..]);
        assert Split(body, '*') == [""] + rest;
      } else {
        FillingIsWeaving(body[1..], fills);
        var segs := Split(body, '*');
        assert segs[0] == [body[0]] + rest[0] && segs[1..] == rest[1..];
      }
    }
  }

  predicate Fits(text: string, path: string, anchored: bool) {
    if anchored then text == path else text <= path
  }

  lemma {:induction false} GapsOf(segs: seq<string>, path: string, anchored: bool) returns (fills: seq<string>)
    requires Tail(segs, path, anchored)
    ensures |fills| == |segs| && Fits(Weave(segs, fills), path, anchored)
    decreases |segs|
  {
    if |segs| == 0 {
      fills := [];
    } else {
      var k :| 0 <= k <= |path| && OccursAt(path, k, segs[0]) && Tail(segs[1..], path[k + |segs[0]|..], anchored);
      var rest := GapsOf(segs[1..], path[k + |segs[0]|..], anchored);
      fills := [path[..k]] + rest;
      assert fills[1..] == rest;
      assert path == path[..k] + segs[0] + path[k + |segs[0]|..];
      PrefixedFits(path[..k] + segs[0], Weave(segs[1..], rest), path[k + |segs[0]|..], anchored);
    }
  }

  /** A common beginning neither helps nor hinders. */
  lemma PrefixedFits(head: string, text: string, path: string, anchored: bool)
    ensures Fits(head + text, head + path, anchored) <==> Fits(text, path, anchored)
  {
    var a, b := head + text, head + path;
    assert a[|head|..] == text && b[|head|..] == path;
    if a <= b {
      assert a == b[..|a|];
      assert text == b[|head|..][..|text|];
    }
  }

  lemma {:induction false} WeavingIsTail(segs: seq<string>, fills: seq<string>, path: string, anchored: bool)
    requires |fills| == |segs| && Fits(Weave(segs, fills), path, anchored)
    ensures Tail(segs, path, anchored)
    decreases |segs|
  {
    if |segs| > 0 {
      var k := |fills[0]|;
      var head := fills[0] + segs[0];
      var text := Weave(segs[1..], fills[1..]);
      assert head <= path by { assert head <= head + text; }
      var rest := path[|head|..];
      assert path == head + rest;
      PrefixedFits(head, text, rest, anchored);
      WeavingIsTail(segs[1..], fills[1..], rest, anchored);
      assert OccursAt(path, k, segs[0]);
    }
  }

  /** Choosing strings for the "*" comes to laying the segments out along the path. */
  lemma MatchingIsLaying(pattern: string, path: string)
    requires pattern != ""
    ensures Matches(pattern, path) <==> Laid(Split(Body(pattern), '*'), path, Anchored(pattern))
  {
    hide Laid, Body, Fill, Stars;
    if Matches(pattern, path) {
      var fills: seq<string> :| |fills| == Stars(Body(pattern)) &&
        if Anchored(pattern) then Fill(Body(pattern), fills) == path else Fill(Body(pattern), fills) <= path;
      FilledIsLaid(Body(pattern), fills, path, Anchored(pattern));
    }
    if Laid(Split(Body(pattern), '*'), path, Anchored(pattern)) {
      var fills := LaidIsFilled(Body(pattern), path, Anchored(pattern));
    }
  }

  lemma FilledIsLaid(body: string, fills: seq<string>, path: string, anchored: bool)
    requires |fills| == Stars(body) && Fits(Fill(body, fills), path, anchored)
    ensures Laid(Split(body, '*'), path, anchored)
  {
    hide Tail, Weave, Fill;
    var segs := Split(body, '*');
    FillingIsWeaving(body, fills);
    var text := Weave(segs[1..], fills);
    assert segs[0] <= segs[0] + text;
    assert segs[0] <= path;
    var rest := path[|segs[0]|..];
    assert path == segs[0] + rest;
    PrefixedFits(segs[0], text, rest, anchored);
    WeavingIsTail(segs[1..], fills, rest, anchored);
  }

  lemma LaidIsFilled(body: string, path: string, anchored: bool) returns (fills: seq<string>)
    requires Laid(Split(body, '*'), path, anchored)
    ensures |fills| == Stars(body) && Fits(Fill(body, fills), path, anchored)
  {
    hide Tail, Weave, Fill;
    var segs := Split(body, '*');
    var rest := path[|segs[0]|..];
    StarsSeparateSegments(body);
    fills := GapsOf(segs[1..], rest, anchored);
    FillingIsWeaving(body, fills);
    assert path == segs[0] + rest;
    PrefixedFits(segs[0], Weave(segs[1..], fills), rest, anchored);
  }

  // ---------------------------------------------------------------------------------------------
  // The exchange argument
  // ---------------------------------------------------------------------------------------------

  /** A layout that starts further along is also one that starts here. */
  lemma EarlierIsNoWorse(segs: seq<string>, path: string, from: nat, anchored: bool)
    requires |segs| > 0 && from <= |path| && Tail(segs, path[from..], anchored)
    ensures Tail(segs, path, anchored)
  {
    var later := path[from..];
    var k :| 0 <= k <= |later| && OccursAt(later, k, segs[0]) && Tail(segs[1..], later[k + |segs[0]|..], anchored);
    assert later[k..k + |segs[0]|] == path[from + k..from + k + |segs[0]|];
    assert later[k + |segs[0]|..] == path[from + k + |segs[0]|..];
    assert OccursAt(path, from + k, segs[0]);
  }

  /** Taking the first occurrence of a segment loses nothing as long as something may still follow it. */
  lemma FirstOccurrenceSuffices(segs: seq<string>, path: string, idx: nat, anchored: bool)
    requires |segs| > 0 && OccursAt(path, idx, segs[0]) && forall k | 0 <= k < idx :: !OccursAt(path, k, segs[0])
    requires !anchored || |segs| > 1
    ensures Tail(segs, path, anchored) <==> Tail(segs[1..], path[idx + |segs[0]|..], anchored)
  {
    if Tail(segs, path, anchored) && |segs| > 1 {
      var k :| 0 <= k <= |path| && OccursAt(path, k, segs[0]) && Tail(segs[1..], path[k + |segs[0]|..], anchored);
      var here := path[idx + |segs[0]|..];
      assert here[k - idx..] == path[k + |segs[0]|..];
      EarlierIsNoWorse(segs[1..], here, k - idx, anchored);
    }
  }

  /** An empty segment before the last one is always skipped. */
  lemma EmptySegmentIsFree(segs: seq<string>, path: string, anchored: bool)
    requires |segs| > 1 && segs[0] == ""
    ensures Tail(segs, path, anchored) <==> Tail(segs[1..], path, anchored)
  {
    if Tail(segs, path, anchored) {
      var k :| 0 <= k <= |path| && OccursAt(path, k, segs[0]) && Tail(segs[1..], path[k + |segs[0]|..], anchored);
      EarlierIsNoWorse(segs[1..], path, k, anchored);
    }
    if Tail(segs[1..], path, anchored) {
      assert path[0..] == path && OccursAt(path, 0, "");
    }
  }

  /** A last segment of an anchored pattern has to end the path. */
  lemma LastSegmentEndsPath(segs: seq<string>, path: string)
    requires |segs| == 1
    ensures Tail(segs, path, true) <==> HasSuffix(path, segs[0])
  {
    var seg := segs[0];
    if HasSuffix(path, seg) {
      var k := |path| - |seg|;
      assert path[k..k + |seg|] == path[k..] && OccursAt(path, k, seg);
      assert path[k + |seg|..] == "" && Tail(segs[1..], path[k + |seg|..], true);
    }
    if Tail(segs, path, true) {
      var k :| 0 <= k <= |path| && OccursAt(path, k, seg) && Tail(segs[1..], path[k + |seg|..], true);
      assert path[k + |seg|..] == "";
      assert path[k..k + |seg|] == path[k..];
    }
  }

  lemma OpenEnd(segs: seq<string>, path: string, k: nat)
    requires |segs| == 1 && OccursAt(path, k, segs[0])
    ensures Tail(segs, path, false)
  {
    assert Tail(segs[1..], path[k + |segs[0]|..], false);
  }

  /** What is left to lay out once the first i segments have been placed up to pos. */
  ghost predicate Remaining(segs: seq<string>, i: nat, path: string, pos: nat, anchored: bool)
    requires 1 <= i <= |segs| && pos <= |path|
  {
    if i < |segs| then Tail(segs[i..], path[pos..], anchored)
    else !anchored || pos == |path| || (|segs| > 1 && segs[|segs| - 1] == "")
  }

  lemma SkippingEmpty(segs: seq<string>, i: nat, path: string, pos: nat, anchored: bool)
    requires 1 <= i < |segs| && pos <= |path| && segs[i] == ""
    ensures Remaining(segs, i, path, pos, anchored) <==> Remaining(segs, i + 1, path, pos, anchored)
  {
    assert segs[i..][1..] == segs[i + 1..];
    if i + 1 < |segs| {
      EmptySegmentIsFree(segs[i..], path[pos..], anchored);
    } else if anchored {
      LastSegmentEndsPath(segs[i..], path[pos..]);
    } else {
      OpenEnd(segs[i..], path[pos..], 0);
    }
  }

  lemma PlacingFirst(segs: seq<string>, i: nat, path: string, pos: nat, idx: nat, anchored: bool)
    requires 1 <= i < |segs| && pos <= |path| && segs[i] != "" && !(anchored && i == |segs| - 1)
    requires OccursAt(path[pos..], idx, segs[i]) && forall k | 0 <= k < idx :: !OccursAt(path[pos..], k, segs[i])
    ensures Remaining(segs, i, path, pos, anchored) <==> Remaining(segs, i + 1, path, pos + idx + |segs[i]|, anchored)
  {
    assert segs[i..][1..] == segs[i + 1..];
    assert path[pos..][idx + |segs[i]|..] == path[pos + idx + |segs[i]|..];
    FirstOccurrenceSuffices(segs[i..], path[pos..], idx, anchored);
  }

  lemma PlacingLast(segs: seq<string>, path: string, pos: nat)
    requires |segs| > 1 && pos <= |path| && segs[|segs| - 1] != ""
    ensures var seg := segs[|segs| - 1];
      Remaining(segs, |segs| - 1, path, pos, true) <==> (|seg| <= |path| - pos && HasSuffix(path, seg))
  {
    var seg := segs[|segs| - 1];
    LastSegmentEndsPath(segs[|segs| - 1..], path[pos..]);
    if |seg| <= |path| - pos { assert path[pos..][|path[pos..]| - |seg|..] == path[|path| - |seg|..]; }
  }

  // ---------------------------------------------------------------------------------------------
  // robotsPathMatch
  // ---------------------------------------------------------------------------------------------

  /** robotsPathMatch: the greedy scan answers yes exactly when the pattern matches. */
  method RobotsPathMatch(pattern: string, path: string) returns (yes: bool)
    ensures yes <==> Matches(pattern, path)
  {
    hide Tail, Fill, Stars;
    if pattern == "" { return false; }
    var anchored := HasSuffix(pattern, "$");
    assert anchored == Anchored(pattern) by { EndsInChar(pattern, '$'); }
    var body := pattern;
    if anchored { body := pattern[..|pattern| - 1]; }
    var segs := Split(body, '*');
    MatchingIsLaying(pattern, path);
    var pos := 0;
    for i := 0 to |segs|
      invariant 0 <= pos <= |path|
      invariant i == 0 ==> pos == 0
      invariant i > 0 ==> (Laid(segs, path, anchored) <==> Remaining(segs, i, path, pos, anchored))
    {
      var seg := segs[i];
      if i == 0 {
        assert path[0..] == path;
        FirstSegment(segs, path, anchored);
      }
      if seg == "" {
        if i > 0 { SkippingEmpty(segs, i, path, pos, anchored); }
        continue;
      }
      if i == 0 {
        if !(seg <= path[pos..]) { return false; }
        pos := pos + |seg|;
      } else if anchored && i == |segs| - 1 {
        PlacingLast(segs, path, pos);
        if |path| - pos < |seg| || !HasSuffix(path, seg) { return false; }
        pos := |path|;
      } else {
        var idx := Index(path[pos..], seg);
        if idx < 0 {
          NowhereToPlace(segs, i, path, pos, anchored);
          return false;
        }
        PlacingFirst(segs, i, path, pos, idx, anchored);
        pos := pos + idx + |seg|;
      }
    }
    SplitEnd(body, '*');
    if anchored && pos != |path| {
      return HasSuffix(body, "*");
    }
    return true;
  }

  lemma FirstSegment(segs: seq<string>, path: string, anchored: bool)
    requires |segs| > 0
    ensures segs[0] <= path ==> (Laid(segs, path, anchored) <==> Remaining(segs, 1, path, |segs[0]|, anchored))
  {
  }

  lemma NowhereToPlace(segs: seq<string>, i: nat, path: string, pos: nat, anchored: bool)
    requires 1 <= i < |segs| && pos <= |path| && forall k | 0 <= k <= |path[pos..]| :: !OccursAt(path[pos..], k, segs[i])
    ensures !Remaining(segs, i, path, pos, anchored)
  {
  }

  /** strings.Index: where a string first occurs, or -1. */
  method Index(s: string, seg: string) returns (idx: int)
    ensures idx >= 0 ==> OccursAt(s, idx, seg) && forall k | 0 <= k < idx :: !OccursAt(s, k, seg)
    ensures idx < 0 ==> forall k | 0 <= k <= |s| :: !OccursAt(s, k, seg)
  {
    for k := 0 to |s| + 1
      invariant forall j | 0 <= j < k :: !OccursAt(s, j, seg)
    {
      if OccursAt(s, k, seg) { return k; }
    }
    return -1;
  }

  // ---------------------------------------------------------------------------------------------
  // The longest matching rule
  // ---------------------------------------------------------------------------------------------

  datatype Rule = Rule(allow: bool, pattern: string)

  datatype Group = Group(agents: seq<string>, rules: seq<Rule>)

  ghost predicate Applies(rules: seq<Rule>, r: Rule, path: string) {
    r in rules && Matches(r.pattern, path)
  }

  /** A path is allowed when every Disallow that matches it is answered by an Allow at least as long. */
  ghost predicate Allowed(rules: seq<Rule>, path: string) {
    forall d | Applies(rules, d, path) && !d.allow ::
      exists a | Applies(rules, a, path) && a.allow :: |a.pattern| >= |d.pattern|
  }

  /** The greatest length among the matching rules of one kind, or -1. */
  ghost predicate IsLongest(rules: seq<Rule>, path: string, allow: bool, n: int) {
    && (forall r | Applies(rules, r, path) && r.allow == allow :: |r.pattern| <= n)
    && (n >= 0 ==> exists r :: Applies(rules, r, path) && r.allow == allow && |r.pattern| == n)
    && n >= -1
  }

  lemma LongestExtended(rules: seq<Rule>, path: string, allow: bool, n: int, r: Rule)
    requires IsLongest(rules, path, allow, n)
    ensures IsLongest(rules + [r], path, allow,
      if Matches(r.pattern, path) && r.allow == allow && |r.pattern| > n then |r.pattern| else n)
  {
    hide Matches;
    assert forall q :: Applies(rules + [r], q, path) <==> Applies(rules, q, path) || (q == r && Matches(r.pattern, path));
  }

  /** robotsGroup.allows. */
  method Allows(rules: seq<Rule>, path: string) returns (yes: bool)
    ensures yes <==> Allowed(rules, path)
  {
    hide Matches;
    var longestAllow, longestDisallow := -1, -1;
    for i := 0 to |rules|
      invariant IsLongest(rules[..i], path, true, longestAllow)
      invariant IsLongest(rules[..i], path, false, longestDisallow)
    {
      var r := rules[i];
      assert rules[..i + 1] == rules[..i] + [r];
      LongestExtended(rules[..i], path, true, longestAllow, r);
      LongestExtended(rules[..i], path, false, longestDisallow, r);
      var matched := RobotsPathMatch(r.pattern, path);
      if !matched { continue; }
      var n := |r.pattern|;
      if r.allow {
        if n > longestAllow { longestAllow := n; }
      } else if n > longestDisallow {
        longestDisallow := n;
      }
    }
    assert rules[..|rules|] == rules;
    if longestDisallow < 0 { return true; }
    return longestAllow >= longestDisallow;
  }

  // ---------------------------------------------------------------------------------------------
  // The most specific group
  // ---------------------------------------------------------------------------------------------

  predicate Names(agent: string, token: string) {
    agent != "*" && token != "" && agent <= token
  }

  /** Some agent of the group names the crawler with n characters. */
  predicate NamedBy(g: Group, token: string, n: int) {
    exists j | 0 <= j < |g.agents| :: Names(g.agents[j], token) && |g.agents[j]| == n
  }

  /** No agent of these groups names the crawler with more than n characters. */
  ghost predicate NoneLonger(groups: seq<Group>, token: string, n: int) {
    forall i, j | 0 <= i < |groups| && 0 <= j < |groups[i].agents| && Names(groups[i].agents[j], token) :: |groups[i].agents[j]| <= n
  }

  /** The first group naming the crawler most specifically, else the first wildcard group, else none. */
  ghost predicate IsSelected(groups: seq<Group>, token: string, choice: Option<nat>) {
    if exists i, j | 0 <= i < |groups| && 0 <= j < |groups[i].agents| :: Names(groups[i].agents[j], token) then
      && choice.Some? && choice.value < |groups|
      && exists n :: NamedBy(groups[choice.value], token, n) && NoneLonger(groups, token, n)
           && forall i | 0 <= i < choice.value :: !NamedBy(groups[i], token, n)
    else if exists i | 0 <= i < |groups| :: "*" in groups[i].agents then
      && choice.Some? && choice.value < |groups| && "*" in groups[choice.value].agents
      && forall i | 0 <= i < choice.value :: "*" !in groups[i].agents
    else choice.None?
  }

  /** What one more group does to the best choice so far. */
  method ConsiderGroup(ghost groups: seq<Group>, i: nat, g: Group, token: string, best: Option<nat>, bestLen: int, wildcard: Option<nat>)
    returns (best': Option<nat>, bestLen': int, wildcard': Option<nat>)
    requires i < |groups| && groups[i] == g && BestSoFar(groups[..i], token, best, bestLen) && WildcardSoFar(groups[..i], wildcard)
    ensures BestSoFar(groups[..i + 1], token, best', bestLen') && WildcardSoFar(groups[..i + 1], wildcard')
  {
    best', bestLen', wildcard' := best, bestLen, wildcard;
    for j := 0 to |g.agents|
      invariant bestLen' >= bestLen
      invariant bestLen' == bestLen ==> best' == best
      invariant bestLen' > bestLen ==> best' == Some(i) && NamedBy(g, token, bestLen')
      invariant forall k | 0 <= k < j && Names(g.agents[k], token) :: |g.agents[k]| <= bestLen'
      invariant wildcard' == if wildcard.None? && "*" in g.agents[..j] then Some(i) else wildcard
    {
      var agent := g.agents[j];
      assert g.agents[..j + 1] == g.agents[..j] + [agent];
      if agent == "*" {
        if wildcard'.None? { wildcard' := Some(i); }
        continue;
      }
      if token == "" || !(agent <= token) { continue; }
      if |agent| > bestLen' { best', bestLen' := Some(i), |agent|; }
    }
    assert g.agents[..|g.agents|] == g.agents;
    assert groups[..i + 1] == groups[..i] + [g];
  }

  ghost predicate BestSoFar(groups: seq<Group>, token: string, best: Option<nat>, n: int) {
    && NoneLonger(groups, token, n) && n >= -1 && (best.None? <==> n == -1)
    && (best.Some? ==> (
          && best.value < |groups| && NamedBy(groups[best.value], token, n)
          && forall i | 0 <= i < best.value :: !NamedBy(groups[i], token, n)))
  }

  ghost predicate WildcardSoFar(groups: seq<Group>, wildcard: Option<nat>) {
    if wildcard.None? then forall i | 0 <= i < |groups| :: "*" !in groups[i].agents
    else (
      && wildcard.value < |groups| && "*" in groups[wildcard.value].agents
      && forall i | 0 <= i < wildcard.value :: "*" !in groups[i].agents)
  }

  /** selectGroup. */
  method SelectGroup(groups: seq<Group>, token: string) returns (choice: Option<nat>)
    ensures IsSelected(groups, token, choice)
  {
    var best, bestLen, wildcard := None, -1, None;
    for i := 0 to |groups|
      invariant BestSoFar(groups[..i], token, best, bestLen) && WildcardSoFar(groups[..i], wildcard)
    {
      best, bestLen, wildcard := ConsiderGroup(groups, i, groups[i], token, best, bestLen, wildcard);
    }
    assert groups[..|groups|] == groups;
    choice := if best.Some? then best else wildcard;
  }
}
