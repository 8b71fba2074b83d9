/** `split_string`, `trim_string` and `equal_ignore_case` of `include/util/string_util.hpp`. */
module StringUtil {
  import opened Text

  // ---------------------------------------------------------------- splitting

  /** The parts between the separators; there is always at least one. */
  function Split(s: string, sep: char): (parts: seq<string>)
    ensures parts != []
    decreases |s|
  {
    var i := IndexOfAny(s, {sep});
    if i == |s| then [s] else [s[..i]] + Split(s[i + 1..], sep)
  }

  function Join(parts: seq<string>, sep: char): string
    requires parts != []
  {
    if |parts| == 1 then parts[0] else parts[0] + [sep] + Join(parts[1..], sep)
  }

  lemma {:induction false} SplitJoins(s: string, sep: char)
    ensures Join(Split(s, sep), sep) == s
    ensures forall k :: 0 <= k < |Split(s, sep)| ==> Free(Split(s, sep)[k], {sep})
    decreases |s|
  {
    var i := IndexOfAny(s, {sep});
    if i < |s| {
      SplitJoins(s[i + 1..], sep);
      var rest := Split(s[i + 1..], sep);
      assert ([s[..i]] + rest)[1..] == rest;
      assert s == s[..i] + [sep] + s[i + 1..];
    }
  }

  lemma {:induction false} SplitOfJoin(parts: seq<string>, sep: char)
    requires parts != [] && forall k :: 0 <= k < |parts| ==> Free(parts[k], {sep})
    ensures Split(Join(parts, sep), sep) == parts
    decreases |parts|
  {
    if |parts| > 1 {
      var rest := Join(parts[1..], sep);
      SplitOfJoin(parts[1..], sep);
      Associate(parts[0], [sep], rest);
      IndexAfter(parts[0], [sep] + rest, {sep});
      CutConcat(parts[0], [sep] + rest);
      CutConcat([sep], rest);
    }
  }

  /** `parts` is what splitting `s` gives exactly when it joins to `s` and no part contains the separator. */
  lemma SplitExactly(s: string, sep: char, parts: seq<string>)
    requires parts != []
    ensures parts == Split(s, sep) <==> Join(parts, sep) == s && forall k :: 0 <= k < |parts| ==> Free(parts[k], {sep})
  {
    SplitJoins(s, sep);
    if Join(parts, sep) == s && forall k :: 0 <= k < |parts| ==> Free(parts[k], {sep}) {
      SplitOfJoin(parts, sep);
    }
  }

  lemma {:induction false} SplitFirst(t: string, sep: char, k: nat, part: string, rest: string)
    requires k == IndexOfAny(t, {sep}) < |t| && part == t[..k] && rest == t[k + 1..]
    ensures Split(t, sep) == [part] + Split(rest, sep)
  {
  }

  lemma SplitLast(t: string, sep: char)
    requires IndexOfAny(t, {sep}) == |t|
    ensures Split(t, sep) == [t]
  {
  }

  /** `parts` and the split of what follows position `i` are `all`. */
  ghost predicate Yielded(s: string, sep: char, i: nat, parts: seq<string>, all: seq<string>)
    requires i <= |s|
  {
    forall k: nat {:trigger Look(k)} :: k == i && Look(k) ==> parts + Split(s[i..], sep) == all
  }

  /** One round of the loop: the part from `i` on up to the next separator or the end. */
  lemma {:induction false} SplitStep(s: string, sep: char, i: nat, next: nat, parts: seq<string>, all: seq<string>)
    requires i <= next <= |s| && next - i == IndexOfAny(s[i..], {sep}) && Yielded(s, sep, i, parts, all)
    ensures if next == |s| then parts + [s[i..]] == all else Yielded(s, sep, next + 1, parts + [s[i..next]], all)
  {
    assert Look(i);
    if next == |s| {
      SplitLast(s[i..], sep);
    } else {
      Slices(s, i, next);
      SplitFirst(s[i..], sep, next - i, s[i..next], s[next + 1..]);
      AppendPart(parts, s[i..next], Split(s[next + 1..], sep));
    }
  }

  lemma AppendPart(parts: seq<string>, part: string, rest: seq<string>)
    ensures parts + ([part] + rest) == parts + [part] + rest
  {
  }

  /** The loop of the generator. */
  method YieldParts(s: string, sep: char, ghost all: seq<string>) returns (parts: seq<string>)
    requires Yielded(s, sep, 0, [], all)
    ensures parts == all
  {
    parts := [];
    var i := 0;
    while i <= |s|
      invariant i <= |s| && Yielded(s, sep, i, parts, all)
      decreases |s| + 1 - i
    {
      var next := i + IndexOfAny(s[i..], {sep});
      SplitStep(s, sep, i, next, parts, all);
      if next == |s| {
        parts := parts + [s[i..]];
        break;
      }
      parts := parts + [s[i..next]];
      i := next + 1;
    }
  }

  method SplitString(s: string, sep: char) returns (parts: seq<string>)
    ensures parts == Split(s, sep)
  {
    assert s[0..] == s;
    parts := YieldParts(s, sep, Split(s, sep));
  }

  // ---------------------------------------------------------------- trimming

  /** The bytes of the whitespace list: some ASCII controls, the blank, and every single byte
      of the UTF-8 forms of the wide blanks. */
  predicate IsSpace(c: char) {
    var b := c as int;
    b == 0x20 || 0x08 <= b <= 0x0d || b == 0xe2 || b == 0xe3 || 0x80 <= b <= 0x8a || b == 0x9f
    || b == 0xa8 || b == 0xa9 || b == 0xaf
  }

  /** The code points of the whitespace list. */
  ghost predicate IsBlankPoint(p: nat) {
    || 0x08 <= p <= 0x0d || p == 0x20 || 0x2000 <= p <= 0x200a
    || p == 0x2028 || p == 0x2029 || p == 0x202f || p == 0x205f || p == 0x3000
  }

  /** The bytes of a code point below 0x10000 in UTF-8, by section 3 of RFC 3629. */
  function Utf8(p: nat): seq<nat> {
    if p < 0x80 then [p]
    else if p < 0x800 then [0xc0 + p / 0x40, 0x80 + p % 0x40]
    else [0xe0 + p / 0x1000, 0x80 + p / 0x40 % 0x40, 0x80 + p % 0x40]
  }

  /** A byte is trimmed exactly when it is one of the bytes of some code point of the list in UTF-8. */
  lemma SpaceExactly(c: char)
    ensures IsSpace(c) <==> exists p, i :: IsBlankPoint(p) && 0 <= i < |Utf8(p)| && Utf8(p)[i] == c as nat
  {
    if IsSpace(c) {
      var p, i := PointOf(c);
    } else {
      forall p: nat, i | IsBlankPoint(p) && 0 <= i < |Utf8(p)|
        ensures Utf8(p)[i] != c as nat
      {
        BytesOfBlank(p, i);
      }
    }
  }

  lemma PointOf(c: char) returns (p: nat, i: nat)
    requires IsSpace(c)
    ensures IsBlankPoint(p) && i < |Utf8(p)| && Utf8(p)[i] == c as nat
  {
    var b := c as nat;
    if b < 0x80 {
      p, i := b, 0;
    } else if 0x80 <= b <= 0x8a {
      p, i := 0x2000 + (b - 0x80), 2;
    } else if b == 0x9f {
      p, i := 0x205f, 2;
    } else if b == 0xe2 {
      p, i := 0x2000, 0;
    } else if b == 0xe3 {
      p, i := 0x3000, 0;
    } else {
      p, i := 0x2000 + (b - 0x80), 2;
    }
  }

  lemma BytesOfBlank(p: nat, i: nat)
    requires IsBlankPoint(p) && i < |Utf8(p)|
    ensures var b := Utf8(p)[i]; b < 256 && IsSpace(b as char)
  {
    if 0x2000 <= p < 0x2040 {
      assert p / 0x1000 == 2 && p / 0x40 % 0x40 == 0;
    }
  }

  /** Number of leading blanks. */
  function Leading(s: string): (n: nat)
    ensures n <= |s|
  {
    if s == "" || !IsSpace(s[0]) then 0 else 1 + Leading(s[1..])
  }

  /** Number of trailing blanks. */
  function Trailing(s: string): (n: nat)
    ensures n <= |s|
  {
    if s == "" || !IsSpace(s[|s| - 1]) then 0 else 1 + Trailing(s[..|s| - 1])
  }

  lemma {:induction false} LeadingIs(s: string, n: nat)
    requires n <= |s| && (n < |s| ==> !IsSpace(s[n])) && forall j :: 0 <= j < n ==> IsSpace(s[j])
    ensures Leading(s) == n
    decreases n
  {
    if n == 0 {
    } else {
      LeadingIs(s[1..], n - 1);
    }
  }

  lemma {:induction false} TrailingIs(s: string, n: nat)
    requires n <= |s| && (n < |s| ==> !IsSpace(s[|s| - 1 - n])) && forall j :: |s| - n <= j < |s| ==> IsSpace(s[j])
    ensures Trailing(s) == n
    decreases n
  {
    if n == 0 {
    } else {
      TrailingIs(s[..|s| - 1], n - 1);
    }
  }

  /** The leading blanks end at the latest where a character is not blank. */
  lemma {:induction false} LeadingStops(s: string, i: nat)
    requires i < |s|
    ensures !IsSpace(s[i]) ==> Leading(s) <= i
    ensures i < Leading(s) ==> IsSpace(s[i])
    ensures Leading(s) < |s| ==> !IsSpace(s[Leading(s)])
  {
    if IsSpace(s[0]) && |s| > 1 { LeadingStops(s[1..], if i > 0 then i - 1 else 0); }
  }

  lemma {:induction false} TrailingStops(s: string, i: nat)
    requires i < |s|
    ensures !IsSpace(s[i]) ==> i < |s| - Trailing(s)
  {
    var n := |s| - 1;
    if IsSpace(s[n]) && i < n { TrailingStops(s[..n], i); }
  }

  lemma TrimBounds(s: string)
    ensures Leading(s) < |s| ==> Leading(s) < |s| - Trailing(s)
  {
    var i := Leading(s);
    if i < |s| {
      LeadingStops(s, i);
      TrailingStops(s, i);
    }
  }

  /** Text that consists of blanks only is returned as it is. */
  function Trim(s: string): (r: string)
    ensures |r| <= |s|
  {
    TrimBounds(s);
    if Leading(s) == |s| then s else s[Leading(s)..|s| - Trailing(s)]
  }

  predicate Trimmed(s: string) {
    s != "" && !IsSpace(s[0]) && !IsSpace(s[|s| - 1])
  }

  lemma TrimAround(s: string, a: string, t: string, b: string)
    requires s == a + t + b && Trimmed(t)
    requires forall j :: 0 <= j < |a| ==> IsSpace(a[j])
    requires forall j :: 0 <= j < |b| ==> IsSpace(b[j])
    ensures Trim(s) == t
  {
    assert s[|a|] == t[0] && s[|a| + |t| - 1] == t[|t| - 1];
    assert forall j :: 0 <= j < |a| ==> s[j] == a[j];
    assert forall j :: 0 <= j < |b| ==> s[|a| + |t| + j] == b[j];
    LeadingIs(s, |a|);
    assert forall j :: |a| + |t| <= j < |s| ==> s[j] == b[j - |a| - |t|];
    TrailingIs(s, |b|);
  }

  lemma {:induction false} TrailingEnds(s: string)
    ensures Trailing(s) < |s| ==> !IsSpace(s[|s| - 1 - Trailing(s)])
    ensures forall j :: |s| - Trailing(s) <= j < |s| ==> IsSpace(s[j])
  {
    if s != "" && IsSpace(s[|s| - 1]) { TrailingEnds(s[..|s| - 1]); }
  }

  predicate Blank(s: string) {
    forall j :: 0 <= j < |s| ==> IsSpace(s[j])
  }

  /** `t` has no blank at either end and only blanks around it in `s`. */
  ghost predicate Inside(s: string, t: string) {
    Trimmed(t) && exists a: nat :: a + |t| <= |s| && s[a..a + |t|] == t && Blank(s[..a]) && Blank(s[a + |t|..])
  }

  lemma LeadingBlank(s: string)
    ensures Blank(s[..Leading(s)]) && (Leading(s) == |s| ==> Blank(s))
  {
    forall i | 0 <= i < Leading(s)
      ensures IsSpace(s[i])
    {
      LeadingStops(s, i);
    }
  }

  lemma TrimInside(s: string)
    requires !Blank(s)
    ensures Inside(s, Trim(s))
  {
    LeadingBlank(s);
    TrimBounds(s);
    var a, end := Leading(s), |s| - Trailing(s);
    LeadingStops(s, a);
    TrailingEnds(s);
    var t := s[a..end];
    assert t[0] == s[a] && t[|t| - 1] == s[end - 1];
    assert s[a..a + |t|] == t && Blank(s[..a]) && Blank(s[a + |t|..]);
  }

  lemma TrimFound(s: string, a: nat, t: string)
    requires Trimmed(t) && a + |t| <= |s| && s[a..a + |t|] == t && Blank(s[..a]) && Blank(s[a + |t|..])
    ensures Trim(s) == t
  {
    var before, behind := s[..a], s[a + |t|..];
    assert s == before + t + behind;
    TrimAround(s, before, t, behind);
  }

  lemma InsideIsTrim(s: string, t: string)
    requires Inside(s, t)
    ensures Trim(s) == t
  {
    var a: nat :| a + |t| <= |s| && s[a..a + |t|] == t && Blank(s[..a]) && Blank(s[a + |t|..]);
    TrimFound(s, a, t);
  }

  lemma BlankTrim(s: string)
    requires Blank(s)
    ensures Trim(s) == s
  {
    LeadingIs(s, |s|);
  }

  /** Trimming gives the one part with no blank at either end that has only blanks around it; a text of blanks only is
      returned as it is. */
  lemma TrimExactly(s: string, t: string)
    ensures Trim(s) == t <==> if Blank(s) then t == s else Inside(s, t)
  {
    if Blank(s) {
      BlankTrim(s);
    } else {
      TrimInside(s);
      if Inside(s, t) { InsideIsTrim(s, t); }
    }
  }

  lemma LeadingBehind(text: string)
    ensures Leading(" " + text) == 1 + Leading(text)
  {
    assert (" " + text)[1..] == text;
  }

  lemma {:induction false} TrailingBehind(text: string, i: nat)
    requires i < |text| && !IsSpace(text[i])
    ensures i < |text| - Trailing(text) && Trailing(" " + text) == Trailing(text)
    decreases |text|
  {
    var n := |text| - 1;
    assert (" " + text)[n + 1] == text[n];
    if IsSpace(text[n]) {
      assert (" " + text)[..n + 1] == " " + text[..n];
      TrailingBehind(text[..n], i);
    }
  }

  lemma ShiftCut(text: string, lead: nat, end: nat)
    requires lead <= end <= |text|
    ensures (" " + text)[1 + lead..1 + end] == text[lead..end]
  {
  }

  lemma TrimIs(s: string, lead: nat, end: nat)
    requires lead == Leading(s) <= end == |s| - Trailing(s) && lead < |s|
    ensures Trim(s) == s[lead..end]
  {
  }

  /** A text that is not all blanks, behind a blank. */
  lemma TrimBehind(text: string, i: nat, lead: nat, end: nat)
    requires i < |text| && !IsSpace(text[i]) && lead == Leading(text) && end == |text| - Trailing(text)
    ensures lead <= i < end && Trim(" " + text) == text[lead..end]
  {
    LeadingBehind(text);
    LeadingStops(text, i);
    TrailingBehind(text, i);
    TrimIs(" " + text, 1 + lead, 1 + end);
    ShiftCut(text, lead, end);
  }

  // ---------------------------------------------------------------- ignoring case

  function LowerChar(c: char): char {
    if 'A' <= c <= 'Z' then (c as int + 32) as char else c
  }

  function Lower(s: string): string {
    seq(|s|, i requires 0 <= i < |s| => LowerChar(s[i]))
  }

  const CAPITALS := "ABCDEFGHIJKLMNOPQRSTUVWXYZ"
  const SMALL := "abcdefghijklmnopqrstuvwxyz"

  /** The same character, or the same letter in the other case. */
  predicate SameLetter(a: char, b: char) {
    a == b || exists k :: 0 <= k < 26 && ((a == CAPITALS[k] && b == SMALL[k]) || (b == CAPITALS[k] && a == SMALL[k]))
  }

  predicate SameLetters(a: string, b: string) {
    |a| == |b| && forall i :: 0 <= i < |a| ==> SameLetter(a[i], b[i])
  }

  lemma LetterAt(k: nat)
    requires k < 26
    ensures CAPITALS[k] as int == 'A' as int + k && SMALL[k] as int == 'a' as int + k
  {
  }

  lemma CapitalAt(c: char) returns (k: nat)
    requires 'A' <= c <= 'Z'
    ensures k < 26 && CAPITALS[k] == c && SMALL[k] == LowerChar(c)
  {
    k := c as int - 'A' as int;
    LetterAt(k);
  }

  lemma LowerSame(k: nat)
    requires k < 26
    ensures LowerChar(CAPITALS[k]) == SMALL[k] == LowerChar(SMALL[k])
  {
    LetterAt(k);
  }

  lemma LowerLetter(a: char, b: char)
    ensures LowerChar(a) == LowerChar(b) <==> SameLetter(a, b)
  {
    if LowerChar(a) == LowerChar(b) && a != b {
      if 'A' <= a <= 'Z' { var k := CapitalAt(a); } else { var k := CapitalAt(b); }
    }
    if a != b && SameLetter(a, b) { LettersLower(a, b); }
  }

  lemma LettersLower(a: char, b: char)
    requires a != b && SameLetter(a, b)
    ensures LowerChar(a) == LowerChar(b)
  {
    var k :| 0 <= k < 26 && ((a == CAPITALS[k] && b == SMALL[k]) || (b == CAPITALS[k] && a == SMALL[k]));
    LowerSame(k);
  }

  /** Two texts are the same ignoring case if and only if they differ only in the case of letters. */
  lemma LowerExactly(a: string, b: string)
    ensures Lower(a) == Lower(b) <==> SameLetters(a, b)
  {
    if |a| == |b| {
      forall i | 0 <= i < |a|
        ensures Lower(a)[i] == Lower(b)[i] <==> SameLetter(a[i], b[i])
      {
        LowerLetter(a[i], b[i]);
      }
    }
  }
}
