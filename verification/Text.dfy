/**
 Strings as the domain layer treats them: Unicode white space, blankness, the byte-wise order
 sort.Strings uses, and the canonical sorted set that participant lists are stored in.
 */
module Text {

  /** unicode.IsSpace: the Latin-1 spaces and the Unicode categories Zs, Zl and Zp. */
  predicate IsSpace(c: char) {
    var n := c as int;
    || 0x09 <= n <= 0x0D || n == 0x20 || n == 0x85 || n == 0xA0 || n == 0x1680
    || 0x2000 <= n <= 0x200A || n == 0x2028 || n == 0x2029 || n == 0x202F || n == 0x205F || n == 0x3000
  }

  /** strings.TrimSpace(s) == "". */
  predicate Blank(s: string) {
    forall i | 0 <= i < |s| :: IsSpace(s[i])
  }

  /** strings.TrimSpace. */
  function Trim(s: string): (r: string)
    ensures |r| <= |s| && (|r| > 0 ==> !IsSpace(r[0]) && !IsSpace(r[|r| - 1]))
  {
    if |s| == 0 then s
    else if IsSpace(s[0]) then Trim(s[1..])
    else if IsSpace(s[|s| - 1]) then Trim(s[..|s| - 1])
    else s
  }

  /** The order of sort.Strings. */
  predicate Less(a: string, b: string) {
    if |b| == 0 then false
    else if |a| == 0 then true
    else if a[0] != b[0] then a[0] < b[0]
    else Less(a[1..], b[1..])
  }

  lemma {:induction false} LessIsTotal(a: string, b: string)
    ensures Less(a, b) || a == b || Less(b, a)
  {
    if |a| > 0 && |b| > 0 && a[0] == b[0] {
      LessIsTotal(a[1..], b[1..]);
      if a[1..] == b[1..] {
        assert a == [a[0]] + a[1..] && b == [b[0]] + b[1..];
      }
    }
  }

  lemma {:induction false} LessIsTransitive(a: string, b: string, c: string)
    requires Less(a, b) && Less(b, c)
    ensures Less(a, c)
  {
    if |a| > 0 && a[0] == b[0] == c[0] {
      LessIsTransitive(a[1..], b[1..], c[1..]);
    }
  }

  lemma {:induction false} LessIsIrreflexive(a: string)
    ensures !Less(a, a)
  {
    if |a| > 0 { LessIsIrreflexive(a[1..]); }
  }

  /** The order is the dictionary's: a proper prefix first, else the first character that differs decides. */
  lemma {:induction false} LessIsLexicographic(a: string, b: string)
    ensures Less(a, b) <==> a < b || exists k | 0 <= k < |a| && k < |b| :: a[..k] == b[..k] && a[k] < b[k]
  {
    if |a| > 0 && |b| > 0 {
      if a[0] == b[0] {
        LessIsLexicographic(a[1..], b[1..]);
        var c, d := a[1..], b[1..];
        assert a == [a[0]] + c && b == [b[0]] + d;
        if k :| 0 <= k < |c| && k < |d| && c[..k] == d[..k] && c[k] < d[k] {
          assert a[..k + 1] == [a[0]] + c[..k] && b[..k + 1] == [b[0]] + d[..k];
          assert a[k + 1] < b[k + 1];
        }
        if k :| 0 <= k < |a| && k < |b| && a[..k] == b[..k] && a[k] < b[k] {
          assert k > 0;
          assert c[..k - 1] == a[..k][1..] && d[..k - 1] == b[..k][1..];
          assert c[k - 1] < d[k - 1];
        }
        assert a < b <==> c < d;
      } else {
        assert a[..0] == b[..0];
      }
    }
  }

  ghost predicate StrictlySorted(s: seq<string>) {
    forall i, j | 0 <= i < j < |s| :: Less(s[i], s[j])
  }

  /** x placed in a sorted sequence; the sequence itself when x is already there. */
  function Place(s: seq<string>, x: string): (r: seq<string>) {
    if |s| == 0 then [x]
    else if s[0] == x then s
    else if Less(x, s[0]) then [x] + s
    else [s[0]] + Place(s[1..], x)
  }

  /** The deduplicated, sorted, blank-free form of a list. */
  function SortedSet(xs: seq<string>): (r: seq<string>) {
    if |xs| == 0 then []
    else
      var rest := SortedSet(xs[..|xs| - 1]);
      if Blank(xs[|xs| - 1]) then rest else Place(rest, xs[|xs| - 1])
  }

  function MergeParticipants(own: string, others: seq<string>): seq<string> {
    SortedSet([own] + others)
  }

  lemma {:induction false} PlaceKeepsOrder(s: seq<string>, x: string)
    requires StrictlySorted(s)
    ensures StrictlySorted(Place(s, x))
    ensures forall y :: y in Place(s, x) <==> y == x || y in s
  {
    if |s| == 0 || s[0] == x {
    } else if Less(x, s[0]) {
      forall i | 0 < i < |s| ensures Less(x, s[i]) { LessIsTransitive(x, s[0], s[i]); }
    } else {
      LessIsTotal(x, s[0]);
      PlaceKeepsOrder(s[1..], x);
      var tail := Place(s[1..], x);
      assert forall y :: y in s <==> y == s[0] || y in s[1..];
      forall i | 0 <= i < |tail| ensures Less(s[0], tail[i]) {
        assert tail[i] in tail;
        if tail[i] != x { var j :| 0 <= j < |s[1..]| && s[1..][j] == tail[i]; assert s[j + 1] == tail[i]; }
      }
    }
  }

  /** A sorted set is strictly ascending and holds exactly the non-blank members of the list. */
  lemma {:induction false} SortedSetIsCanonical(xs: seq<string>)
    ensures StrictlySorted(SortedSet(xs))
    ensures forall y :: y in SortedSet(xs) <==> y in xs && !Blank(y)
  {
    if |xs| > 0 {
      var init := xs[..|xs| - 1];
      SortedSetIsCanonical(init);
      PlaceKeepsOrder(SortedSet(init), xs[|xs| - 1]);
      assert xs == init + [xs[|xs| - 1]];
    }
  }

  lemma {:induction false} SortedIsUnique(s: seq<string>, t: seq<string>)
    requires StrictlySorted(s) && StrictlySorted(t)
    requires forall y :: y in s <==> y in t
    ensures s == t
  {
    assert |t| == 0 || t[0] in s;
    assert |s| == 0 || s[0] in t;
    if |s| > 0 && |t| > 0 {
      HeadsAgree(s, t);
      HeadsAgree(t, s);
      LessIsTotal(s[0], t[0]);
      LessIsIrreflexive(s[0]);
      if Less(s[0], t[0]) && Less(t[0], s[0]) { LessIsTransitive(s[0], t[0], s[0]); }
      assert s[0] == t[0];
      TailMembers(s);
      TailMembers(t);
      SortedIsUnique(s[1..], t[1..]);
      assert s == [s[0]] + s[1..] && t == [t[0]] + t[1..];
    }
  }

  lemma HeadsAgree(s: seq<string>, t: seq<string>)
    requires StrictlySorted(s) && StrictlySorted(t) && |s| > 0 && |t| > 0
    requires forall y :: y in s <==> y in t
    ensures s[0] == t[0] || Less(t[0], s[0])
  {
    assert s[0] in t;
  }

  lemma TailMembers(s: seq<string>)
    requires StrictlySorted(s) && |s| > 0
    ensures forall y :: y in s[1..] <==> y in s && y != s[0]
  {
    forall y | y in s[1..] ensures y in s && y != s[0] {
      var i :| 0 <= i < |s[1..]| && s[1..][i] == y;
      assert s[i + 1] == y;
      LessIsIrreflexive(y);
    }
    forall y | y in s && y != s[0] ensures y in s[1..] {
      var i :| 0 <= i < |s| && s[i] == y;
      assert s[1..][i - 1] == y;
    }
  }

  /** Only the members of a list decide its sorted set, never their order or number. */
  lemma SortedSetIgnoresOrder(xs: seq<string>, ys: seq<string>)
    requires forall y :: y in xs <==> y in ys
    ensures SortedSet(xs) == SortedSet(ys)
  {
    SortedSetIsCanonical(xs);
    SortedSetIsCanonical(ys);
    SortedIsUnique(SortedSet(xs), SortedSet(ys));
  }

  /** sort.Strings on a list without repetitions. */
  function Sorted(xs: seq<string>): seq<string> {
    if |xs| == 0 then [] else Place(Sorted(xs[..|xs| - 1]), xs[|xs| - 1])
  }

  lemma {:induction false} SortingBlankFree(xs: seq<string>)
    requires forall x | x in xs :: !Blank(x)
    ensures Sorted(xs) == SortedSet(xs)
  {
    if |xs| > 0 { SortingBlankFree(xs[..|xs| - 1]); }
  }

  /** sortedSet as it is written: keep each non-blank value the first time it is seen, then sort. */
  method CollectSortedSet(xs: seq<string>) returns (out: seq<string>)
    ensures out == SortedSet(xs)
  {
    out := [];
    var seen: set<string> := {};
    for i := 0 to |xs|
      invariant forall y :: y in out <==> y in xs[..i] && !Blank(y)
      invariant forall y :: y in seen <==> y in out
    {
      assert xs[..i + 1] == xs[..i] + [xs[i]];
      if !Blank(xs[i]) && xs[i] !in seen {
        seen := seen + {xs[i]};
        out := out + [xs[i]];
      }
    }
    assert xs[..|xs|] == xs;
    SortingBlankFree(out);
    SortedSetIsCanonical(out);
    SortedSetIsCanonical(xs);
    SortedIsUnique(SortedSet(out), SortedSet(xs));
    out := Sorted(out);
  }
}
