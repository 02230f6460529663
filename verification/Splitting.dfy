/** strings.Split on one character, and the affix tests that go with it. */
module Splitting {

  /** The pieces of a string between the separators; always at least one. */
  function Split(s: string, sep: char): (pieces: seq<string>)
    ensures |pieces| > 0
  {
    if |s| == 0 then [""]
    else
      var rest := Split(s[1..], sep);
      if s[0] == sep then [""] + rest else [[s[0]] + rest[0]] + rest[1..]
  }

  predicate HasSuffix(s: string, t: string) {
    |t| <= |s| && s[|s| - |t|..] == t
  }

  lemma EndsInChar(s: string, c: char)
    ensures HasSuffix(s, [c]) <==> |s| > 0 && s[|s| - 1] == c
  {
    if |s| > 0 { assert s[|s| - 1..] == [s[|s| - 1]]; }
  }

  /** A string ends in the separator exactly when its last piece is empty and there is another before it. */
  lemma {:induction false} SplitEnd(s: string, sep: char)
    ensures var pieces := Split(s, sep);
      HasSuffix(s, [sep]) <==> |pieces| > 1 && pieces[|pieces| - 1] == ""
  {
    EndsInChar(s, sep);
    if |s| > 0 {
      SplitEnd(s[1..], sep);
      EndsInChar(s[1..], sep);
      if |s| == 1 { assert s[1..] == ""; } else { assert s[1..][|s| - 2] == s[|s| - 1]; }
    }
  }

  /** A piece without separators, and a separator, come off the front. */
  lemma {:induction false} SplitLine(a: string, b: string, sep: char)
    requires sep !in a
    ensures Split(a + [sep] + b, sep) == [a] + Split(b, sep)
  {
    var s := a + [sep] + b;
    if |a| == 0 {
      assert s[1..] == b;
    } else {
      SplitLine(a[1..], b, sep);
      assert s[1..] == a[1..] + [sep] + b;
      assert s[0] == a[0];
      assert [a[0]] + a[1..] == a;
    }
  }
}
