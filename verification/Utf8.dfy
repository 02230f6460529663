/**
 Cutting UTF-8 text to a byte budget: the two excerpt truncators (internal/domain/evidence.go,
 collectors/sdk/collector.go) and the query truncator (internal/application/queries.go). Well-formedness is
 that of section 4 of RFC 3629.
 */
module Utf8 {

  newtype byte = b: int | 0 <= b < 256

  // ---------------------------------------------------------------------------------------------
  // Well-formed UTF-8
  // ---------------------------------------------------------------------------------------------

  predicate IsTail(b: byte) { 0x80 <= b <= 0xBF }

  /** utf8.RuneStart. */
  predicate RuneStart(b: byte) { !IsTail(b) }

  /** The length of the well-formed character a string starts with, or 0. */
  function RuneLength(s: seq<byte>): (n: nat)
    ensures n <= |s| && n <= 4
  {
    if |s| >= 1 && s[0] <= 0x7F then 1
    else if |s| >= 2 && 0xC2 <= s[0] <= 0xDF && IsTail(s[1]) then 2
    else if |s| >= 3 && ThreeBytes(s[0], s[1]) && IsTail(s[2]) then 3
    else if |s| >= 4 && FourBytes(s[0], s[1]) && IsTail(s[2]) && IsTail(s[3]) then 4
    else 0
  }

  predicate ThreeBytes(a: byte, b: byte) {
    || (a == 0xE0 && 0xA0 <= b <= 0xBF)
    || (0xE1 <= a <= 0xEC && IsTail(b))
    || (a == 0xED && 0x80 <= b <= 0x9F)
    || (0xEE <= a <= 0xEF && IsTail(b))
  }

  predicate FourBytes(a: byte, b: byte) {
    || (a == 0xF0 && 0x90 <= b <= 0xBF)
    || (0xF1 <= a <= 0xF3 && IsTail(b))
    || (a == 0xF4 && 0x80 <= b <= 0x8F)
  }

  /** utf8.ValidString: a sequence of well-formed characters. */
  predicate Valid(s: seq<byte>) {
    |s| == 0 || (RuneLength(s) > 0 && Valid(s[RuneLength(s)..]))
  }

  /** What UTF-8 can encode: every code point but the surrogates. */
  predicate IsScalar(cp: int) { 0 <= cp < 0xD800 || 0xE000 <= cp < 0x11_0000 }

  /** The bytes of a code point: as many as it needs, six bits in each but the first. */
  function Encoded(cp: int): seq<byte>
    requires IsScalar(cp)
  {
    if cp < 0x80 then [cp as byte]
    else if cp < 0x800 then [(0xC0 + cp / 64) as byte, (0x80 + cp % 64) as byte]
    else if cp < 0x1_0000 then [(0xE0 + cp / 4096) as byte, (0x80 + cp / 64 % 64) as byte, (0x80 + cp % 64) as byte]
    else [(0xF0 + cp / 262_144) as byte, (0x80 + cp / 4096 % 64) as byte, (0x80 + cp / 64 % 64) as byte, (0x80 + cp % 64) as byte]
  }

  lemma LastDigit(x: int, d: int)
    requires 0 <= x && 0 <= d < 64
    ensures (x * 64 + d) / 64 == x && (x * 64 + d) % 64 == d
  {
  }

  lemma ByStages(cp: int)
    requires cp >= 0
    ensures cp / 4096 == cp / 64 / 64 && cp / 262_144 == cp / 64 / 64 / 64
  {
  }

  /** Six-bit digits, put together and taken apart. */
  lemma Digits(a: int, b: int, c: int, d: int)
    requires 0 <= a && 0 <= b < 64 && 0 <= c < 64 && 0 <= d < 64
    ensures var cp := a * 262_144 + b * 4096 + c * 64 + d;
      cp % 64 == d && cp / 64 % 64 == c && cp / 4096 % 64 == b && cp / 262_144 == a
  {
    LastDigit(a, b);
    LastDigit(a * 64 + b, c);
    LastDigit((a * 64 + b) * 64 + c, d);
    ByStages(((a * 64 + b) * 64 + c) * 64 + d);
  }

  lemma Taken(cp: int) returns (a: int, b: int, c: int, d: int)
    requires cp >= 0
    ensures a == cp / 262_144 && b == cp / 4096 % 64 && c == cp / 64 % 64 && d == cp % 64
    ensures cp == a * 262_144 + b * 4096 + c * 64 + d && 0 <= a && 0 <= b < 64 && 0 <= c < 64 && 0 <= d < 64
    ensures cp < 262_144 ==> a == 0 && b == cp / 4096
    ensures cp < 4096 ==> c == cp / 64
  {
    a, b, c, d := cp / 262_144, cp / 4096 % 64, cp / 64 % 64, cp % 64;
    assert cp / 64 / 64 == cp / 4096 && cp / 4096 / 64 == cp / 262_144;
  }

  /** The bytes of a code point by its six-bit digits. */
  lemma EncodedBy(cp: int, a: int, b: int, c: int, d: int)
    requires IsScalar(cp) && cp == a * 262_144 + b * 4096 + c * 64 + d && 0 <= a && 0 <= b < 64 && 0 <= c < 64 && 0 <= d < 64
    ensures 0x80 <= cp < 0x800 ==> c + 0xC0 < 256 && Encoded(cp) == [(0xC0 + c) as byte, (0x80 + d) as byte]
    ensures 0x800 <= cp < 0x1_0000 ==> b + 0xE0 < 256 && Encoded(cp) == [(0xE0 + b) as byte, (0x80 + c) as byte, (0x80 + d) as byte]
    ensures 0x1_0000 <= cp ==>
      a + 0xF0 < 256 && Encoded(cp) == [(0xF0 + a) as byte, (0x80 + b) as byte, (0x80 + c) as byte, (0x80 + d) as byte]
  {
    Digits(a, b, c, d);
    var a', b', c', d' := Taken(cp);
  }

  lemma EncodingIsRead(cp: int, s: seq<byte>)
    requires IsScalar(cp) && Encoded(cp) <= s
    ensures RuneLength(s) == |Encoded(cp)|
  {
    var bytes := Encoded(cp);
    assert forall i | 0 <= i < |bytes| :: s[i] == bytes[i];
    if cp >= 0x80 {
      var a, b, c, d := Taken(cp);
      EncodedBy(cp, a, b, c, d);
      hide Encoded;
      if cp < 0x800 {
        assert c >= 2;
      } else if cp < 0x1_0000 {
        assert ThreeBytes(s[0], s[1]);
      } else {
        assert FourBytes(s[0], s[1]);
      }
    }
  }

  lemma TwoBytesEncode(s: seq<byte>) returns (cp: int)
    requires RuneLength(s) == 2
    ensures IsScalar(cp) && Encoded(cp) == s[..2]
  {
    var c, d := s[0] as int - 0xC0, s[1] as int - 0x80;
    cp := c * 64 + d;
    EncodedBy(cp, 0, 0, c, d);
    hide Encoded;
  }

  lemma ThreeBytesEncode(s: seq<byte>) returns (cp: int)
    requires RuneLength(s) == 3
    ensures IsScalar(cp) && Encoded(cp) == s[..3]
  {
    var b, c, d := s[0] as int - 0xE0, s[1] as int - 0x80, s[2] as int - 0x80;
    cp := b * 4096 + c * 64 + d;
    assert IsScalar(cp) && 0x800 <= cp < 0x1_0000;
    EncodedBy(cp, 0, b, c, d);
    hide Encoded;
  }

  lemma FourBytesEncode(s: seq<byte>) returns (cp: int)
    requires RuneLength(s) == 4
    ensures IsScalar(cp) && Encoded(cp) == s[..4]
  {
    var a, b, c, d := s[0] as int - 0xF0, s[1] as int - 0x80, s[2] as int - 0x80, s[3] as int - 0x80;
    cp := a * 262_144 + b * 4096 + c * 64 + d;
    assert IsScalar(cp) && 0x1_0000 <= cp;
    EncodedBy(cp, a, b, c, d);
    hide Encoded;
  }

  lemma RuneIsEncoded(s: seq<byte>) returns (cp: int)
    requires RuneLength(s) > 0
    ensures IsScalar(cp) && Encoded(cp) == s[..RuneLength(s)]
  {
    var n := RuneLength(s);
    if n == 1 {
      cp := s[0] as int;
    } else if n == 2 {
      cp := TwoBytesEncode(s);
    } else if n == 3 {
      cp := ThreeBytesEncode(s);
    } else {
      cp := FourBytesEncode(s);
    }
  }

  /** A string starts with a character of n bytes exactly when it starts with the n bytes of some code point. */
  lemma CharactersAreCodePoints(s: seq<byte>, n: nat)
    requires 0 < n
    ensures RuneLength(s) == n <==> exists cp | IsScalar(cp) :: Encoded(cp) <= s && |Encoded(cp)| == n
  {
    if cp :| IsScalar(cp) && Encoded(cp) <= s && |Encoded(cp)| == n { EncodingIsRead(cp, s); }
    if RuneLength(s) == n {
      var cp := RuneIsEncoded(s);
      assert Encoded(cp) <= s && |Encoded(cp)| == n;
    }
  }

  /** A character is its first byte, which starts one, and tail bytes; cut short it is not a character. */
  lemma RuneShape(s: seq<byte>, i: nat)
    requires RuneLength(s) > 0 && i <= |s|
    ensures RuneStart(s[0])
    ensures 0 < i < RuneLength(s) ==> IsTail(s[i]) && RuneLength(s[..i]) == 0
    ensures i >= RuneLength(s) ==> RuneLength(s[..i]) == RuneLength(s)
  {
  }

  /** In well-formed text the whole-character prefixes are those that stop before a starting byte. */
  lemma {:induction false} PrefixIsValidIffStart(s: seq<byte>, i: nat)
    requires Valid(s) && i < |s|
    ensures Valid(s[..i]) <==> RuneStart(s[i])
  {
    hide RuneLength;
    var n := RuneLength(s);
    RuneShape(s, i);
    if i >= n {
      PrefixIsValidIffStart(s[n..], i - n);
      assert s[..i][n..] == s[n..][..i - n];
    }
  }

  /** Nowhere is a starting byte more than three bytes back. */
  lemma {:induction false} StartIsNear(s: seq<byte>, i: nat) returns (j: nat)
    requires Valid(s) && i < |s|
    ensures j <= i <= j + 3 && RuneStart(s[j])
  {
    hide RuneLength;
    var n := RuneLength(s);
    RuneShape(s, 0);
    if i < n {
      j := 0;
    } else {
      j := StartIsNear(s[n..], i - n);
      j := j + n;
    }
  }

  lemma {:induction false} ValidPiecesJoin(s: seq<byte>, t: seq<byte>)
    requires Valid(s) && Valid(t)
    ensures Valid(s + t)
  {
    hide RuneLength;
    if |s| == 0 {
      assert s + t == t;
    } else {
      var n := RuneLength(s);
      ValidPiecesJoin(s[n..], t);
      SameRune(s, s + t);
      assert (s + t)[n..] == s[n..] + t;
    }
  }

  lemma SameRune(s: seq<byte>, t: seq<byte>)
    requires s <= t && RuneLength(s) > 0
    ensures RuneLength(t) == RuneLength(s)
  {
  }

  lemma FirstRuneComesOff(s: seq<byte>)
    requires Valid(s) && |s| > 0
    ensures RuneLength(s) > 0 && Valid(s[RuneLength(s)..])
  {
  }

  lemma SlicesAgree(s: seq<byte>, n: nat, i: nat)
    requires n <= i <= |s|
    ensures s[n..][..i - n] == s[..i][n..] && s[n..][i - n..] == s[i..]
  {
  }

  lemma {:induction false} ValidAfterPrefix(s: seq<byte>, i: nat)
    requires Valid(s) && i <= |s| && Valid(s[..i])
    ensures Valid(s[i..])
  {
    hide RuneLength, Valid;
    if i == 0 {
      assert s[0..] == s;
    } else {
      FirstRuneComesOff(s[..i]);
      FirstRuneComesOff(s);
      var n := RuneLength(s[..i]);
      SameRune(s[..i], s);
      SlicesAgree(s, n, i);
      ValidAfterPrefix(s[n..], i - n);
    }
  }

  // ---------------------------------------------------------------------------------------------
  // The longest whole-character prefix
  // ---------------------------------------------------------------------------------------------

  /** p is a whole-character prefix of s within the budget, and no longer one is. */
  ghost predicate IsLongestPrefix(p: seq<byte>, s: seq<byte>, budget: nat) {
    && p <= s && |p| <= budget && Valid(p)
    && forall n | |p| < n <= budget && n <= |s| :: !Valid(s[..n])
  }

  /** Stepping back from the budget to a starting byte, or to valid text, gives the same longest prefix. */
  lemma SteppingBackIsLongest(s: seq<byte>, budget: nat, cut: nat)
    requires Valid(s) && cut <= budget < |s| && RuneStart(s[cut])
    requires forall i | cut < i <= budget :: !RuneStart(s[i])
    ensures IsLongestPrefix(s[..cut], s, budget) && budget <= cut + 3
  {
    PrefixIsValidIffStart(s, cut);
    forall n | cut < n <= budget ensures !Valid(s[..n]) { PrefixIsValidIffStart(s, n); }
    var j := StartIsNear(s, budget);
  }

  lemma LongestIsUnique(p: seq<byte>, q: seq<byte>, s: seq<byte>, budget: nat)
    requires IsLongestPrefix(p, s, budget) && IsLongestPrefix(q, s, budget)
    ensures p == q
  {
    assert p == s[..|p|] && q == s[..|q|];
  }

  /**
   truncateOnRuneBoundary. Text within the budget is left alone; otherwise well-formed text keeps its
   longest whole-character prefix, at most three bytes short of the budget.
   */
  method TruncateOnRuneBoundary(s: seq<byte>, maxBytes: nat) returns (r: seq<byte>)
    ensures r <= s && |r| <= maxBytes
    ensures |s| <= maxBytes ==> r == s
    ensures Valid(s) ==> IsLongestPrefix(r, s, maxBytes)
    ensures Valid(s) && |s| > maxBytes ==> maxBytes <= |r| + 3
  {
    if |s| <= maxBytes {
      assert s[..|s|] == s;
      return s;
    }
    var cut := StepBack(s, maxBytes);
    return s[..cut];
  }

  /** The loop shared by truncateOnRuneBoundary and BoundExcerpt. */
  method StepBack(s: seq<byte>, budget: nat) returns (cut: nat)
    requires budget < |s|
    ensures cut <= budget
    ensures Valid(s) ==> IsLongestPrefix(s[..cut], s, budget) && budget <= cut + 3
  {
    cut := budget;
    while cut > 0 && !RuneStart(s[cut])
      invariant cut <= budget && forall i | cut < i <= budget :: !RuneStart(s[i])
    {
      cut := cut - 1;
    }
    if Valid(s) {
      RuneShape(s, 0);
      SteppingBackIsLongest(s, budget, cut);
    }
  }

  // ---------------------------------------------------------------------------------------------
  // Trimming
  // ---------------------------------------------------------------------------------------------

  /** The encodings of unicode.IsSpace's characters. */
  predicate IsSpace(s: seq<byte>) {
    || (|s| == 1 && (0x09 <= s[0] <= 0x0D || s[0] == 0x20))
    || (|s| == 2 && s[0] == 0xC2 && (s[1] == 0x85 || s[1] == 0xA0))
    || (|s| == 3 && s[0] == 0xE1 && s[1] == 0x9A && s[2] == 0x80)
    || (|s| == 3 && s[0] == 0xE2 && s[1] == 0x80 && (0x80 <= s[2] <= 0x8A || s[2] in {0xA8, 0xA9, 0xAF}))
    || (|s| == 3 && s[0] == 0xE2 && s[1] == 0x81 && s[2] == 0x9F)
    || (|s| == 3 && s[0] == 0xE3 && s[1] == 0x80 && s[2] == 0x80)
  }

  /** The length of the space a string starts with, or 0. */
  function LeadingSpace(s: seq<byte>): (n: nat)
    ensures n <= |s| && n <= 3
    ensures n > 0 ==> IsSpace(s[..n])
  {
    if |s| >= 1 && IsSpace(s[..1]) then 1
    else if |s| >= 2 && IsSpace(s[..2]) then 2
    else if |s| >= 3 && IsSpace(s[..3]) then 3
    else 0
  }

  /** The length of the space a string ends with, or 0. */
  function TrailingSpace(s: seq<byte>): (n: nat)
    ensures n <= |s| && n <= 3
    ensures n > 0 ==> IsSpace(s[|s| - n..])
  {
    if |s| >= 1 && IsSpace(s[|s| - 1..]) then 1
    else if |s| >= 2 && IsSpace(s[|s| - 2..]) then 2
    else if |s| >= 3 && IsSpace(s[|s| - 3..]) then 3
    else 0
  }

  /** strings.TrimSpace on well-formed text. */
  function Trim(s: seq<byte>): (t: seq<byte>)
    ensures |t| <= |s| && LeadingSpace(t) == 0 && TrailingSpace(t) == 0
    decreases |s|
  {
    if LeadingSpace(s) > 0 then Trim(s[LeadingSpace(s)..])
    else if TrailingSpace(s) > 0 then Trim(s[..|s| - TrailingSpace(s)])
    else s
  }

  lemma SpaceIsRune(s: seq<byte>)
    requires IsSpace(s)
    ensures RuneLength(s) == |s|
  {
  }

  lemma DroppingSpaces(s: seq<byte>)
    requires Valid(s)
    ensures LeadingSpace(s) > 0 ==> Valid(s[LeadingSpace(s)..])
    ensures TrailingSpace(s) > 0 ==> Valid(s[..|s| - TrailingSpace(s)])
  {
    hide RuneLength, IsSpace, LeadingSpace, TrailingSpace;
    var n, i := LeadingSpace(s), |s| - TrailingSpace(s);
    if n > 0 {
      SpaceIsRune(s[..n]);
      assert s[..n][n..] == [];
      ValidAfterPrefix(s, n);
    }
    if i < |s| {
      SpaceIsRune(s[i..]);
      RuneShape(s[i..], 0);
      PrefixIsValidIffStart(s, i);
    }
  }

  lemma {:induction false} TrimmingKeepsValid(s: seq<byte>)
    requires Valid(s)
    ensures Valid(Trim(s))
    decreases |s|
  {
    hide RuneLength, IsSpace, LeadingSpace, TrailingSpace, Valid;
    DroppingSpaces(s);
    if LeadingSpace(s) > 0 {
      TrimmingKeepsValid(s[LeadingSpace(s)..]);
    } else if TrailingSpace(s) > 0 {
      TrimmingKeepsValid(s[..|s| - TrailingSpace(s)]);
    }
  }

  // ---------------------------------------------------------------------------------------------
  // Excerpts
  // ---------------------------------------------------------------------------------------------

  const MAX_EXCERPT_LENGTH := 4000

  /** U+2026, in three bytes. */
  const ELLIPSIS: seq<byte> := [0xE2, 0x80, 0xA6]

  /** What an over-long excerpt becomes: its longest whole-character prefix within the budget, and an ellipsis. */
  ghost predicate IsBounded(r: seq<byte>, s: seq<byte>) {
    if |s| <= MAX_EXCERPT_LENGTH then r == s
    else
      && |r| >= |ELLIPSIS| && r[|r| - |ELLIPSIS|..] == ELLIPSIS
      && IsLongestPrefix(r[..|r| - |ELLIPSIS|], s, MAX_EXCERPT_LENGTH - |ELLIPSIS|)
  }

  lemma BoundedIsUnique(r: seq<byte>, q: seq<byte>, s: seq<byte>)
    requires IsBounded(r, s) && IsBounded(q, s)
    ensures r == q
  {
    if |s| > MAX_EXCERPT_LENGTH {
      var p, o := r[..|r| - |ELLIPSIS|], q[..|q| - |ELLIPSIS|];
      LongestIsUnique(p, o, s, MAX_EXCERPT_LENGTH - |ELLIPSIS|);
      assert r == p + ELLIPSIS && q == o + ELLIPSIS;
    }
  }

  /** BoundExcerpt: step back to a starting byte. */
  method BoundExcerpt(text: seq<byte>) returns (r: seq<byte>)
    ensures |r| <= MAX_EXCERPT_LENGTH
    ensures Valid(text) ==> IsBounded(r, Trim(text))
  {
    hide IsLongestPrefix;
    var s := Trim(text);
    if |s| <= MAX_EXCERPT_LENGTH { return s; }
    var cut := StepBack(s, MAX_EXCERPT_LENGTH - |ELLIPSIS|);
    r := s[..cut] + ELLIPSIS;
    if Valid(text) {
      TrimmingKeepsValid(text);
      assert r[..|r| - |ELLIPSIS|] == s[..cut];
    }
  }

  /** TruncateExcerpt: drop bytes until what is left is well-formed. */
  method TruncateExcerpt(text: seq<byte>) returns (r: seq<byte>)
    ensures |r| <= MAX_EXCERPT_LENGTH
    ensures IsBounded(r, Trim(text))
  {
    var s := Trim(text);
    if |s| <= MAX_EXCERPT_LENGTH { return s; }
    var budget := MAX_EXCERPT_LENGTH - |ELLIPSIS|;
    var cut := s[..budget];
    while |cut| > 0 && !Valid(cut)
      invariant |cut| <= budget && cut == s[..|cut|]
      invariant forall n | |cut| < n <= budget :: !Valid(s[..n])
    {
      assert cut[..|cut| - 1] == s[..|cut| - 1];
      cut := cut[..|cut| - 1];
    }
    r := cut + ELLIPSIS;
    assert r[..|r| - |ELLIPSIS|] == cut;
  }

  /** The rule Evidence.Validate applies to an excerpt. */
  predicate StorableExcerpt(r: seq<byte>) {
    Trim(r) != [] && |r| <= MAX_EXCERPT_LENGTH
  }

  /** A bounded excerpt is well-formed, within the limit, already trimmed, and bounding it again changes nothing. */
  lemma BoundedIsFinal(text: seq<byte>, r: seq<byte>)
    requires Valid(text) && IsBounded(r, Trim(text))
    ensures Valid(r) && |r| <= MAX_EXCERPT_LENGTH && Trim(r) == r && IsBounded(r, Trim(r))
    ensures Trim(text) != [] ==> StorableExcerpt(r)
    ensures |Trim(text)| > MAX_EXCERPT_LENGTH ==> |r| >= MAX_EXCERPT_LENGTH - 3
  {
    hide IsLongestPrefix, Valid, LeadingSpace, TrailingSpace, RuneLength;
    var s := Trim(text);
    TrimmingKeepsValid(text);
    TrimmedStays(text);
    if |s| > MAX_EXCERPT_LENGTH {
      var budget := MAX_EXCERPT_LENGTH - |ELLIPSIS|;
      var p := r[..|r| - |ELLIPSIS|];
      LongIsNearBudget(p, s, budget);
      EllipsisIsRune();
      ValidPiecesJoin(p, ELLIPSIS);
      assert r == p + ELLIPSIS;
      EllipsisEndsTrimmed(p, s);
    }
  }

  lemma TrimmedStays(text: seq<byte>)
    ensures Trim(Trim(text)) == Trim(text)
  {
  }

  lemma LongIsNearBudget(p: seq<byte>, s: seq<byte>, budget: nat)
    requires Valid(s) && budget < |s| && IsLongestPrefix(p, s, budget)
    ensures budget <= |p| + 3 && |p| <= budget && p <= s && Valid(p)
  {
    var j := StartIsNear(s, budget);
    PrefixIsValidIffStart(s, j);
  }

  lemma EllipsisIsRune()
    ensures Valid(ELLIPSIS)
  {
    assert RuneLength(ELLIPSIS) == 3 && ELLIPSIS[3..] == [];
  }

  lemma NoEllipsisSpace()
    ensures !IsSpace([0xA6]) && !IsSpace([0x80, 0xA6]) && !IsSpace(ELLIPSIS)
  {
  }

  lemma EllipsisEndsTrimmed(p: seq<byte>, s: seq<byte>)
    requires p <= s && |p| >= 3 && LeadingSpace(s) == 0
    ensures Trim(p + ELLIPSIS) == p + ELLIPSIS
  {
    hide IsSpace;
    NoEllipsisSpace();
    var r := p + ELLIPSIS;
    assert r[..1] == s[..1] && r[..2] == s[..2] && r[..3] == s[..3];
    assert r[|r| - 1..] == [0xA6] && r[|r| - 2..] == [0x80, 0xA6] && r[|r| - 3..] == ELLIPSIS;
  }

  /**
   The collector's bound and the domain's agree on well-formed text, and the domain's, applied after
   the collector's as extraction does, is the identity.
   */
  method BoundThenTruncate(text: seq<byte>) returns (bounded: seq<byte>, truncated: seq<byte>)
    ensures Valid(text) ==> truncated == bounded && |bounded| <= MAX_EXCERPT_LENGTH
  {
    bounded := BoundExcerpt(text);
    truncated := TruncateExcerpt(bounded);
    if Valid(text) {
      BoundedIsFinal(text, bounded);
      BoundedIsUnique(truncated, bounded, bounded);
    }
  }
}
