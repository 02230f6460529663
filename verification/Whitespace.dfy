/**
 Normalising fetched text before it is hashed (internal/adapters/normalize/normalize.go): the one-pass
 collapse of white space, and joining the sections of a page so that no two section lists collide.
 */
module Whitespace {
  import opened Text
  import opened Splitting

  const ZERO_WIDTH: set<char> := {'\U{200B}', '\U{200C}', '\U{200D}', '\U{FEFF}'}

  /** The text without its zero-width characters. */
  function Visible(s: string): (v: string)
    ensures forall c | c in v :: c in s && c !in ZERO_WIDTH
  {
    if |s| == 0 then ""
    else
      var n := |s| - 1;
      assert s == s[..n] + [s[n]];
      if s[n] in ZERO_WIDTH then Visible(s[..n]) else Visible(s[..n]) + [s[n]]
  }

  predicate EndsInSpace(s: string) { |s| > 0 && IsSpace(s[|s| - 1]) }

  /** strings.Fields: the maximal runs of characters that are not white space. */
  function Fields(s: string): (words: seq<string>)
    ensures |s| > 0 && !EndsInSpace(s) ==> |words| > 0
  {
    if |s| == 0 then []
    else
      var n := |s| - 1;
      var before := Fields(s[..n]);
      if IsSpace(s[n]) then before
      else if n == 0 || EndsInSpace(s[..n]) then before + [[s[n]]]
      else before[..|before| - 1] + [before[|before| - 1] + [s[n]]]
  }

  /** strings.Join. */
  function Join(words: seq<string>, sep: char): string {
    if |words| == 0 then ""
    else if |words| == 1 then words[0]
    else Join(words[..|words| - 1], sep) + [sep] + words[|words| - 1]
  }

  /** What collapseWhitespace is to compute. */
  function Collapsed(s: string): string {
    Join(Fields(Visible(s)), ' ')
  }

  // ---------------------------------------------------------------------------------------------
  // The pass
  // ---------------------------------------------------------------------------------------------

  lemma LastWordGrows(words: seq<string>, c: char, sep: char)
    requires |words| > 0
    ensures Join(words[..|words| - 1] + [words[|words| - 1] + [c]], sep) == Join(words, sep) + [c]
  {
    var n := |words| - 1;
    var longer := words[..n] + [words[n] + [c]];
    assert longer[..n] == words[..n];
    if n > 0 {
      var head := Join(words[..n], sep) + [sep];
      assert head + (words[n] + [c]) == (head + words[n]) + [c];
    }
  }

  lemma NextWordIsJoined(words: seq<string>, word: string, sep: char)
    ensures Join(words + [word], sep) == if |words| == 0 then word else Join(words, sep) + [sep] + word
  {
    assert (words + [word])[..|words|] == words;
  }

  lemma VisibleExtended(s: string, c: char)
    ensures Visible(s + [c]) == if c in ZERO_WIDTH then Visible(s) else Visible(s) + [c]
  {
    assert (s + [c])[..|s|] == s;
  }

  /** What one more visible character does to the words. */
  lemma FieldsExtended(v: string, c: char)
    ensures Fields(v + [c]) ==
      if IsSpace(c) then Fields(v)
      else if |v| == 0 || EndsInSpace(v) then Fields(v) + [[c]]
      else Fields(v)[..|Fields(v)| - 1] + [Fields(v)[|Fields(v)| - 1] + [c]]
  {
    assert (v + [c])[..|v|] == v;
  }

  /** The white space seen since the last character written will have to be shown. */
  predicate Pending(v: string) { EndsInSpace(v) && |Fields(v)| > 0 }

  lemma SpaceWritesNothing(v: string, c: char)
    requires IsSpace(c)
    ensures Join(Fields(v + [c]), ' ') == Join(Fields(v), ' ')
    ensures Pending(v + [c]) <==> |Fields(v)| > 0
  {
    FieldsExtended(v, c);
  }

  lemma LetterIsWritten(v: string, c: char)
    requires !IsSpace(c)
    ensures Join(Fields(v + [c]), ' ') == Join(Fields(v), ' ') + (if Pending(v) then " " else "") + [c]
    ensures !Pending(v + [c]) && |Fields(v + [c])| > 0
  {
    FieldsExtended(v, c);
    var before := Fields(v);
    if |v| == 0 || EndsInSpace(v) {
      NextWordIsJoined(before, [c], ' ');
    } else {
      LastWordGrows(before, c, ' ');
      assert Join(before, ' ') + "" == Join(before, ' ');
    }
  }

  /** collapseWhitespace. */
  method CollapseWhitespace(s: string) returns (b: string)
    ensures b == Collapsed(s)
  {
    hide IsSpace, Visible, Fields, Join;
    b := "";
    var pendingSpace, wroteAny := false, false;
    NothingWritten();
    for i := 0 to |s|
      invariant b == Join(Fields(Visible(s[..i])), ' ')
      invariant pendingSpace == Pending(Visible(s[..i])) && wroteAny == (|Fields(Visible(s[..i]))| > 0)
    {
      var r := s[i];
      assert s[..i + 1] == s[..i] + [r];
      VisibleExtended(s[..i], r);
      if r in ZERO_WIDTH { continue; }
      var v := Visible(s[..i]);
      if IsSpace(r) {
        SpaceWritesNothing(v, r);
        FieldsExtended(v, r);
        pendingSpace := wroteAny;
        continue;
      }
      LetterIsWritten(v, r);
      ghost var was := b;
      if pendingSpace {
        b := b + [' '];
        pendingSpace := false;
      } else {
        assert was + "" == was;
      }
      b := b + [r];
      wroteAny := true;
    }
    assert s[..|s|] == s;
  }

  lemma NothingWritten()
    ensures Visible("") == "" && Fields("") == [] && Join([], ' ') == ""
  {
    assert ""[..0] == "";
  }

  // ---------------------------------------------------------------------------------------------
  // Collapsing twice
  // ---------------------------------------------------------------------------------------------

  /** A word: not empty, without white space and without zero-width characters. */
  predicate IsWord(w: string) {
    |w| > 0 && forall c | c in w :: !IsSpace(c) && c !in ZERO_WIDTH
  }

  lemma {:induction false} FieldsAreWords(v: string)
    requires forall c | c in v :: c !in ZERO_WIDTH
    ensures forall w | w in Fields(v) :: IsWord(w)
  {
    hide IsSpace;
    if |v| > 0 {
      var n := |v| - 1;
      assert v == v[..n] + [v[n]];
      FieldsAreWords(v[..n]);
      FieldsExtended(v[..n], v[n]);
      if !IsSpace(v[n]) && n > 0 && !EndsInSpace(v[..n]) {
        var before := Fields(v[..n]);
        assert before[|before| - 1] in before;
      }
    }
  }

  lemma {:induction false} VisibleIsWhole(s: string)
    requires forall c | c in s :: c !in ZERO_WIDTH
    ensures Visible(s) == s
  {
    if |s| > 0 {
      var n := |s| - 1;
      assert s == s[..n] + [s[n]];
      VisibleIsWhole(s[..n]);
    }
  }

  /** A word after the beginning, or after white space, is one more word. */
  lemma {:induction false} WordIsRead(v: string, w: string)
    requires IsWord(w) && (|v| == 0 || EndsInSpace(v))
    ensures Fields(v + w) == Fields(v) + [w] && !EndsInSpace(v + w)
    decreases |w|
  {
    hide IsSpace;
    var n := |w| - 1;
    assert w == w[..n] + [w[n]] && w[n] in w;
    assert v + w == (v + w[..n]) + [w[n]];
    FieldsExtended(v + w[..n], w[n]);
    if n > 0 {
      assert forall c | c in w[..n] :: c in w;
      WordIsRead(v, w[..n]);
    } else {
      assert v + w[..n] == v;
    }
  }

  lemma {:induction false} JoinedWordsAreRead(words: seq<string>)
    requires forall w | w in words :: IsWord(w)
    ensures Fields(Join(words, ' ')) == words
    ensures |words| > 0 ==> |Join(words, ' ')| > 0 && !EndsInSpace(Join(words, ' '))
    ensures forall c | c in Join(words, ' ') :: c !in ZERO_WIDTH
    ensures forall c | c in Join(words, ' ') :: IsSpace(c) ==> c == ' '
  {
    hide IsSpace;
    if |words| > 0 {
      var n := |words| - 1;
      assert words == words[..n] + [words[n]];
      assert IsWord(words[n]);
      JoinedWordsAreRead(words[..n]);
      if n == 0 {
        WordIsRead("", words[0]);
        assert "" + words[0] == words[0];
      } else {
        var head := Join(words[..n], ' ') + [' '];
        SpaceIsSpace();
        FieldsExtended(Join(words[..n], ' '), ' ');
        WordIsRead(head, words[n]);
      }
    }
  }

  lemma SpaceIsSpace()
    ensures IsSpace(' ') && IsSpace('\n') && ' ' !in ZERO_WIDTH
  {
  }

  /** Collapsing what is collapsed changes nothing, and the only white space left is single spaces between words. */
  lemma CollapsingIsIdempotent(s: string)
    ensures Collapsed(Collapsed(s)) == Collapsed(s)
    ensures forall c | c in Collapsed(s) :: c !in ZERO_WIDTH && (IsSpace(c) ==> c == ' ')
    ensures '\n' !in Collapsed(s)
  {
    hide IsSpace;
    var words := Fields(Visible(s));
    FieldsAreWords(Visible(s));
    JoinedWordsAreRead(words);
    VisibleIsWhole(Collapsed(s));
    SpaceIsSpace();
  }

  // ---------------------------------------------------------------------------------------------
  // Sections
  // ---------------------------------------------------------------------------------------------

  /** The collapsed text of each section, without the empty ones. */
  function Parts(sections: seq<string>): seq<string> {
    if |sections| == 0 then []
    else
      var n := |sections| - 1;
      var t := Collapsed(sections[n]);
      if t != "" then Parts(sections[..n]) + [t] else Parts(sections[..n])
  }

  /** The section loop of normalizeHTML: the bytes that are hashed. */
  method NormalizeSections(sections: seq<string>) returns (normalized: string)
    ensures normalized == Join(Parts(sections), '\n')
  {
    hide Collapsed;
    var parts := [];
    for i := 0 to |sections|
      invariant parts == Parts(sections[..i])
    {
      assert sections[..i + 1][..i] == sections[..i];
      var t := CollapseWhitespace(sections[i]);
      if t != "" { parts := parts + [t]; }
    }
    assert sections[..|sections|] == sections;
    return Join(parts, '\n');
  }

  lemma {:induction false} PartsAreLines(sections: seq<string>)
    ensures forall p | p in Parts(sections) :: p != "" && '\n' !in p
  {
    hide Collapsed;
    if |sections| > 0 {
      PartsAreLines(sections[..|sections| - 1]);
      CollapsingIsIdempotent(sections[|sections| - 1]);
    }
  }

  lemma {:induction false} JoinFromFront(words: seq<string>, sep: char)
    requires |words| > 1
    ensures Join(words, sep) == words[0] + [sep] + Join(words[1..], sep)
  {
    var n := |words| - 1;
    if n > 1 {
      JoinFromFront(words[..n], sep);
      assert words[..n][1..] == words[1..][..n - 1];
      var head := words[0] + [sep];
      assert Join(words[1..], sep) == Join(words[1..][..n - 1], sep) + [sep] + words[n];
      assert Join(words, sep) == head + Join(words[1..][..n - 1], sep) + [sep] + words[n];
    }
  }

  lemma {:induction false} LinesAreRecovered(lines: seq<string>)
    requires |lines| > 0 && forall l | l in lines :: '\n' !in l
    ensures Split(Join(lines, '\n'), '\n') == lines
  {
    assert lines[0] in lines;
    if |lines| == 1 {
      WholeIsOnePiece(lines[0]);
    } else {
      JoinFromFront(lines, '\n');
      assert forall l | l in lines[1..] :: l in lines;
      LinesAreRecovered(lines[1..]);
      SplitLine(lines[0], Join(lines[1..], '\n'), '\n');
      assert lines == [lines[0]] + lines[1..];
    }
  }

  lemma {:induction false} WholeIsOnePiece(s: string)
    requires '\n' !in s
    ensures Split(s, '\n') == [s]
  {
    if |s| > 0 {
      assert s == [s[0]] + s[1..];
      WholeIsOnePiece(s[1..]);
    }
  }

  lemma NonEmptyPartsShow(parts: seq<string>)
    requires |parts| > 0 && forall p | p in parts :: p != ""
    ensures Join(parts, '\n') != ""
  {
    assert parts[0] in parts;
  }

  /** Pages whose hashed bytes are the same have the same sections: the joining never confuses two lists. */
  lemma SectionsDoNotCollide(sections: seq<string>, others: seq<string>)
    ensures Join(Parts(sections), '\n') == Join(Parts(others), '\n') <==> Parts(sections) == Parts(others)
  {
    hide Join, Parts, Split;
    PartsAreLines(sections);
    PartsAreLines(others);
    var a, b := Parts(sections), Parts(others);
    if Join(a, '\n') == Join(b, '\n') {
      EmptyJoin();
      if |a| > 0 { NonEmptyPartsShow(a); LinesAreRecovered(a); }
      if |b| > 0 { NonEmptyPartsShow(b); LinesAreRecovered(b); }
    }
  }

  lemma EmptyJoin()
    ensures Join([], '\n') == ""
  {
  }
}
