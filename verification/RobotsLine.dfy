/**
 What one line of a robots.txt body says, described by how it can be written: white space, comments and the
 letter case of the field are the writer's choice.
 */
module RobotsLine {
  import opened Wrappers
  import opened Text
  import opened Splitting
  import opened RobotsMatch
  import opened RobotsFile

  /** A field, a colon and a value, with white space around each and perhaps a comment at the end. */
  datatype Written = Written(
    indent: string, field: string, gap: string, spacing: string, value: string, tail: string, comment: Option<string>)

  predicate White(s: string) { forall c | c in s :: IsSpace(c) }

  predicate Tight(s: string) { s != "" ==> !IsSpace(s[0]) && !IsSpace(s[|s| - 1]) }

  /** The white space is white, the field has no colon, nothing before the comment starts one. */
  predicate WellWritten(w: Written) {
    && White(w.indent) && White(w.gap) && White(w.spacing) && White(w.tail)
    && Tight(w.field) && Tight(w.value)
    && ':' !in w.field && '#' !in w.field && '#' !in w.value
  }

  function Before(w: Written): string { w.indent + w.field + w.gap + ":" + w.spacing + w.value + w.tail }

  function LineOf(w: Written): string {
    Before(w) + if w.comment.Some? then "#" + w.comment.value else ""
  }

  /** The same text but for the case of letters, low being in lower case. */
  predicate InLowerCase(s: string, low: string) {
    && |s| == |low|
    && forall i | 0 <= i < |s| ::
         if 'A' <= s[i] <= 'Z' then low[i] as int == s[i] as int + 32 else low[i] == s[i]
  }

  /** What a field and its value say. */
  predicate Says(field: string, value: string, d: Directive) {
    match d
    case Agent(name) => (InLowerCase(field, "user-agent") || InLowerCase(field, "useragent")) && InLowerCase(value, name)
    case RuleLine(rule) => InLowerCase(field, if rule.allow then "allow" else "disallow") && rule.pattern == value
    case Delay => InLowerCase(field, "crawl-delay")
    case Sitemap(url) => InLowerCase(field, "sitemap") && url == value
    case Nothing => false
  }

  // ---------------------------------------------------------------------------------------------
  // Trimming and finding
  // ---------------------------------------------------------------------------------------------

  lemma LoweredIs(s: string, low: string)
    ensures InLowerCase(s, low) <==> Lower(s) == low
  {
    if InLowerCase(s, low) {
      forall i | 0 <= i < |s| ensures Lower(s)[i] == low[i] {}
    }
  }

  lemma {:induction false} TrimmedOf(l: string, s: string, r: string)
    requires White(l) && White(r) && Tight(s)
    ensures Trim(l + s + r) == s
    decreases |l| + |r|
  {
    var t := l + s + r;
    if |l| > 0 {
      assert l[0] in l && t[0] == l[0];
      assert t[1..] == l[1..] + s + r;
      TrimmedOf(l[1..], s, r);
    } else if |r| > 0 {
      var n := |r| - 1;
      assert r[n] in r && t[|t| - 1] == r[n];
      assert t[..|t| - 1] == l + s + r[..n];
      if s == "" {
        assert r[0] in r;
        assert t[1..] == l + s + r[1..];
        TrimmedOf(l, s, r[1..]);
      } else {
        assert t[0] == s[0];
        TrimmedOf(l, s, r[..n]);
      }
    } else {
      assert t == s;
    }
  }

  lemma MoreBefore(c: char, l: string, s: string, r: string)
    requires IsSpace(c) && White(l)
    ensures White([c] + l) && [c] + (l + s + r) == [c] + l + s + r
  {
  }

  lemma MoreAfter(l: string, s: string, r: string, c: char)
    requires IsSpace(c) && White(r)
    ensures White(r + [c]) && (l + s + r) + [c] == l + s + (r + [c])
  {
  }

  lemma {:induction false} TrimCuts(s: string) returns (l: string, r: string)
    ensures White(l) && White(r) && s == l + Trim(s) + r && Tight(Trim(s))
  {
    hide White, IsSpace;
    l, r := "", "";
    NothingIsWhite();
    if |s| > 0 && IsSpace(s[0]) {
      var l', r' := TrimCuts(s[1..]);
      MoreBefore(s[0], l', Trim(s), r');
      l, r := [s[0]] + l', r';
      assert s == [s[0]] + s[1..];
    } else if |s| > 0 && IsSpace(s[|s| - 1]) {
      var n := |s| - 1;
      var l', r' := TrimCuts(s[..n]);
      MoreAfter(l', Trim(s), r', s[n]);
      l, r := l', r' + [s[n]];
      assert s == s[..n] + [s[n]];
    } else {
      assert s == "" + s + "";
    }
  }

  lemma NothingIsWhite()
    ensures White("")
  {
  }

  lemma WhiteHoldsNoMark(s: string)
    requires White(s)
    ensures ':' !in s && '#' !in s
  {
  }

  /** Cutting at the first comment mark. */
  lemma CommentIsCut(line: string, comment: Option<string>)
    requires '#' !in line
    ensures Uncommented(line + if comment.Some? then "#" + comment.value else "") == line
  {
    if comment.Some? {
      var all := line + ("#" + comment.value);
      assert all[..|line|] == line && all[|line|] == '#';
      FirstIndexIs(all, '#', |line|);
    } else {
      assert line + "" == line;
    }
  }

  /** A carriage return at the end of a line is white space like any other. */
  lemma ReturnIsWhite(line: string)
    ensures Trim(WithoutReturn(line)) == Trim(line)
  {
    var l, r := TrimCuts(WithoutReturn(line));
    if HasSuffix(line, "\r") {
      var n := |line| - 1;
      EndsInChar(line, '\r');
      assert line == line[..n] + "\r";
      assert IsSpace('\r') && White(r + "\r");
      assert line == l + Trim(WithoutReturn(line)) + (r + "\r");
      TrimmedOf(l, Trim(WithoutReturn(line)), r + "\r");
    }
  }

  // ---------------------------------------------------------------------------------------------
  // Reading a line
  // ---------------------------------------------------------------------------------------------

  lemma NamedSays(field: string, value: string, d: Directive)
    requires d != Nothing
    ensures Named(Lower(field), value) == d <==> Says(field, value, d)
  {
    hide Lower, InLowerCase;
    LoweredIs(field, "user-agent");
    LoweredIs(field, "useragent");
    LoweredIs(field, "allow");
    LoweredIs(field, "disallow");
    LoweredIs(field, "crawl-delay");
    LoweredIs(field, "sitemap");
    if d.Agent? { LoweredIs(value, d.name); }
    FieldsDiffer();
  }

  lemma FieldsDiffer()
    ensures "user-agent" != "disallow" && "user-agent" != "allow" && "user-agent" != "crawl-delay" && "user-agent" != "sitemap"
    ensures "useragent" != "disallow" && "useragent" != "allow" && "useragent" != "crawl-delay" && "useragent" != "sitemap"
    ensures "allow" != "disallow" && "allow" != "crawl-delay" && "allow" != "sitemap"
    ensures "disallow" != "crawl-delay" && "disallow" != "sitemap" && "crawl-delay" != "sitemap"
  {
    assert "user-agent"[0] == 'u' && "useragent"[0] == 'u' && "disallow"[0] == 'd' && "allow"[0] == 'a';
    assert "crawl-delay"[0] == 'c' && "sitemap"[0] == 's';
  }

  /** However it is written, a line is read as its field and value say. */
  lemma ReadAsWritten(w: Written)
    requires WellWritten(w)
    ensures Classify(LineOf(w)) == Named(Lower(w.field), w.value)
  {
    hide Trim, IndexOf, IsSpace, Lower, Named, WithoutReturn, Uncommented;
    var text := w.field + w.gap + ":" + w.spacing + w.value;
    var all := Before(w);
    WhiteHoldsNoMark(w.indent);
    WhiteHoldsNoMark(w.gap);
    WhiteHoldsNoMark(w.spacing);
    WhiteHoldsNoMark(w.tail);
    CommentIsCut(all, w.comment);
    ReturnIsWhite(all);
    TrimmedLine(w);
  }

  /** The field and the value are found in what trimming leaves of the line. */
  lemma TrimmedLine(w: Written)
    requires WellWritten(w) && '#' !in Before(w)
    ensures var line := Trim(Before(w)); var colon := IndexOf(line, ':');
      0 <= colon < |line| && Trim(line[..colon]) == w.field && Trim(line[colon + 1..]) == w.value
  {
    hide Trim, IndexOf, IsSpace;
    var left, right := w.indent + w.field + w.gap, w.spacing + w.value + w.tail;
    assert Before(w) == left + ":" + right;
    WhiteHoldsNoMark(w.indent);
    WhiteHoldsNoMark(w.gap);
    var l, r := TrimCuts(Before(w));
    ColonSurvives(left, right, l, Trim(Before(w)), r);
    var n := |left| - |l|;
    var line := Trim(Before(w));
    FirstIndexIs(line, ':', n);
    // What is cut off at either end is white, so trimming each side afresh gives the same.
    assert left == l + line[..n];
    assert right == line[n + 1..] + r;
    TrimmedOf(w.indent, w.field, w.gap);
    TrimmedOf(w.spacing, w.value, w.tail);
    TrimIgnoresEnds(l, line[..n], "");
    TrimIgnoresEnds("", line[n + 1..], r);
    assert l + line[..n] + "" == left && "" + line[n + 1..] + r == right;
  }

  lemma TrimIgnoresEnds(l: string, s: string, r: string)
    requires White(l) && White(r)
    ensures Trim(l + s + r) == Trim(s)
  {
    hide Trim, IsSpace;
    var a, b := TrimCuts(s);
    assert White(l + a) && White(b + r) by { WhiteTogether(l, a); WhiteTogether(b, r); }
    assert l + s + r == (l + a) + Trim(s) + (b + r);
    TrimmedOf(l + a, Trim(s), b + r);
  }

  lemma WhiteTogether(a: string, b: string)
    requires White(a) && White(b)
    ensures White(a + b)
  {
  }

  /** The colon is not white, so trimming around it keeps it. */
  lemma ColonSurvives(left: string, right: string, l: string, line: string, r: string)
    requires left + ":" + right == l + line + r && White(l) && White(r) && ':' !in left
    ensures |l| <= |left| && |r| <= |right|
    ensures var n := |left| - |l|;
      n < |line| && line[n] == ':' && line[..n] == left[|l|..] && ':' !in line[..n]
      && left == l + line[..n] && right == line[n + 1..] + r
  {
    var all := left + ":" + right;
    assert all[|left|] == ':' && !IsSpace(':');
    if |l| > |left| { assert false; }
    if |r| > |right| { assert false; }
    var n := |left| - |l|;
    assert all[|l|..|all| - |r|] == line;
    assert line[n] == all[|left|];
    assert line[..n] == left[|l|..];
    assert all[..|left|] == left && all[|left| + 1..] == right;
    assert l == all[..|l|];
    assert r == all[|all| - |r|..];
  }

  lemma Mark(a: string, s: string, b: string, mark: char)
    requires mark !in a + s + b
    ensures mark !in a && mark !in s && mark !in b
  {
    assert forall i | 0 <= i < |s| :: (a + s + b)[|a| + i] == s[i];
    assert forall i | 0 <= i < |a| :: (a + s + b)[i] == a[i];
    assert forall i | 0 <= i < |b| :: (a + s + b)[|a| + |s| + i] == b[i];
  }

  lemma Assembled(l: string, fl: string, field: string, fr: string, vl: string, value: string, vr: string, r: string)
    ensures (l + fl) + field + fr + ":" + vl + value + (vr + r) == l + ((fl + field + fr) + ":" + (vl + value + vr)) + r
  {
  }

  /** Any text with a colon and no comment is written somehow. */
  lemma WrittenText(text: string) returns (w: Written)
    requires '#' !in text && IndexOf(Trim(text), ':') >= 0
    ensures WellWritten(w) && Before(w) == text && w.comment.None?
  {
    hide Trim, IndexOf, IsSpace, White, Tight;
    var l, r := TrimCuts(text);
    var line := Trim(text);
    var colon := IndexOf(line, ':');
    var left, right := line[..colon], line[colon + 1..];
    assert line == left + ":" + right;
    var fl, fr := TrimCuts(left);
    var vl, vr := TrimCuts(right);
    Mark(l, line, r, '#');
    Mark(left, ":", right, '#');
    Mark(fl, Trim(left), fr, '#');
    Mark(fl, Trim(left), fr, ':');
    Mark(vl, Trim(right), vr, '#');
    WhiteTogether(l, fl);
    WhiteTogether(vr, r);
    Assembled(l, fl, Trim(left), fr, vl, Trim(right), vr, r);
    w := Written(l + fl, Trim(left), fr, vl, Trim(right), vr + r, None);
  }

  /** Any line with a colon before its comment is written somehow. */
  lemma WrittenSomehow(raw: string) returns (w: Written)
    requires Classify(raw) != Nothing
    ensures WellWritten(w) && LineOf(w) == raw
  {
    hide Trim, IndexOf, Named, Lower, White, Tight, Uncommented;
    ReturnIsWhite(Uncommented(raw));
    var comment := CommentOf(raw);
    w := WrittenText(Uncommented(raw));
    w := w.(comment := comment);
  }

  /** What the comment mark cuts off. */
  lemma CommentOf(raw: string) returns (comment: Option<string>)
    ensures '#' !in Uncommented(raw)
    ensures raw == Uncommented(raw) + if comment.Some? then "#" + comment.value else ""
  {
    var i := IndexOf(raw, '#');
    if i >= 0 {
      comment := Some(raw[i + 1..]);
      assert raw == raw[..i] + ("#" + raw[i + 1..]);
    } else {
      comment := None;
      assert raw + "" == raw;
    }
  }

  /**
   What a line of a robots.txt body says. It gives a directive exactly when it can be written as a field, a
   colon and a value, with any white space around them and any comment after, such that field and value say
   that directive; and there is no directive in any other line.
   */
  lemma LineMeans(raw: string, d: Directive)
    requires d != Nothing
    ensures Classify(raw) == d <==> exists w :: WellWritten(w) && LineOf(w) == raw && Says(w.field, w.value, d)
  {
    hide Classify, WellWritten, LineOf, Says, Lower, Named;
    forall w | WellWritten(w) && LineOf(w) == raw ensures Classify(raw) == d <==> Says(w.field, w.value, d) {
      ReadAsWritten(w);
      NamedSays(w.field, w.value, d);
    }
    if Classify(raw) == d { var w := WrittenSomehow(raw); }
  }
}
