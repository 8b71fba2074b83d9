/**
  What percent-decoding means: which byte an escape stands for, and that a text with any of its characters escaped
  decodes to the text. An escape is built from the byte by division, so that nothing here depends on how it is read.
 */
module UrlDecode {
  import opened Text
  import opened Url

  const LOWER := "0123456789abcdef"
  const UPPER := "0123456789ABCDEF"

  /** `c` is the hexadecimal digit `d`, in either case. */
  predicate Hex(c: char, d: nat)
    requires d < 16
  {
    c == LOWER[d] || c == UPPER[d]
  }

  predicate IsHex(c: char) {
    c in LOWER || c in UPPER
  }

  /** `x` is the escape of the byte `n`. */
  predicate Escape(x: string, n: nat)
    requires n < 256
  {
    |x| == 3 && x[0] == '%' && Hex(x[1], n / 16) && Hex(x[2], n % 16)
  }

  lemma HexValue(c: char, d: nat)
    requires d < 16
    ensures Hex(c, d) <==> HexDigit(c) == Some(d)
  {
  }

  lemma NotHex(c: char)
    ensures !IsHex(c) <==> HexDigit(c) == None
  {
    if IsHex(c) {
      if i :| 0 <= i < |LOWER| && LOWER[i] == c { HexValue(c, i); }
      if i :| 0 <= i < |UPPER| && UPPER[i] == c { HexValue(c, i); }
    } else if HexDigit(c).Some? {
      HexKnown(c, HexDigit(c).value);
    }
  }

  lemma HexKnown(c: char, d: nat)
    requires HexDigit(c) == Some(d)
    ensures IsHex(c)
  {
    HexValue(c, d);
    assert LOWER[d] in LOWER && UPPER[d] in UPPER;
  }

  /** The first escape of a text and what is around it. */
  lemma EscapeAt(p: string, x: string, r: string)
    requires Free(p, {'%'}) && |x| == 3 && x[0] == '%'
    ensures var s := p + x + r; IndexOfAny(s, {'%'}) == |p| && |p| + 3 <= |s|
    ensures var s := p + x + r; s[..|p|] == p && s[|p| + 1] == x[1] && s[|p| + 2] == x[2] && s[|p| + 3..] == r
  {
    assert p + x + r == p + (x + r);
    IndexAfter(p, x + r, {'%'});
  }

  lemma DecodeAt(p: string, x: string, r: string, piece: string)
    requires Free(p, {'%'}) && |x| == 3 && x[0] == '%'
    requires piece == match HexPrefix(x[1], x[2]) case None => "" case Some(v) => p + [v as char]
    ensures Decode(p + x + r) == Prefixed(piece, Decode(r))
  {
    EscapeAt(p, x, r);
    DecodeStep(p + x + r, |p|, piece);
  }

  /** An escape is read as its byte, whatever is around it. */
  lemma EscapeDecodes(p: string, x: string, n: nat, r: string)
    requires Free(p, {'%'}) && n < 256 && Escape(x, n)
    ensures Decode(p + x + r) == Prefixed(p + [n as char], Decode(r))
  {
    HexValue(x[1], n / 16);
    HexValue(x[2], n % 16);
    DecodeAt(p, x, r, p + [n as char]);
  }

  /** A first digit alone stands for its own value. */
  lemma LoneDigitDecodes(p: string, a: char, d: nat, b: char, r: string)
    requires Free(p, {'%'}) && d < 16 && Hex(a, d) && !IsHex(b)
    ensures Decode(p + ['%', a, b] + r) == Prefixed(p + [d as char], Decode(r))
  {
    HexValue(a, d);
    NotHex(b);
    DecodeAt(p, ['%', a, b], r, p + [d as char]);
  }

  /** Without a first digit the escape is dropped, and the text before it as well. */
  lemma BadEscapeDrops(p: string, a: char, b: char, r: string)
    requires Free(p, {'%'}) && !IsHex(a)
    ensures Decode(p + ['%', a, b] + r) == Decode(r)
  {
    NotHex(a);
    DecodeAt(p, ['%', a, b], r, "");
    PrefixedEmpty(Decode(r));
  }

  /** With fewer than two characters behind the '%' decoding aborts. */
  lemma ShortEscapeAborts(p: string, r: string)
    requires Free(p, {'%'}) && |r| < 2
    ensures Decode(p + ("%" + r)) == None
  {
    IndexAfter(p, "%" + r, {'%'});
  }

  /** `e` is `s` with some of its characters escaped, among them every '%'. */
  ghost predicate Spells(e: string, s: string) {
    if e == "" then s == ""
    else
      && s != ""
      && if e[0] == '%' then |e| >= 3 && s[0] as int < 256 && Escape(e[..3], s[0] as int) && Spells(e[3..], s[1..])
         else e[0] == s[0] && Spells(e[1..], s[1..])
  }

  /** The characters up to the first escape stand for themselves. */
  lemma {:induction false} SpellsFront(e: string, s: string, k: nat)
    requires Spells(e, s) && k == IndexOfAny(e, {'%'})
    ensures k <= |s| && s[..k] == e[..k] && Spells(e[k..], s[k..])
    decreases |e|
  {
    if e == "" || e[0] == '%' {
      assert e[0..] == e && s[0..] == s;
    } else {
      SpellsFront(e[1..], s[1..], k - 1);
      assert e[..k] == [e[0]] + e[1..][..k - 1] && s[..k] == [s[0]] + s[1..][..k - 1];
      assert e[k..] == e[1..][k - 1..] && s[k..] == s[1..][k - 1..];
    }
  }

  /** A text with any of its characters escaped decodes to the text. */
  lemma {:induction false} SpelledDecodes(e: string, s: string)
    requires Spells(e, s)
    ensures Decode(e) == Some(s)
    decreases |e|
  {
    var k := IndexOfAny(e, {'%'});
    SpellsFront(e, s, k);
    if k == |e| {
      assert e[..k] == e && s[k..] == "" && s[..k] == s;
    } else {
      var f, g := e[k..], s[k..];
      assert f[0] == '%';
      SpelledDecodes(f[3..], g[1..]);
      SpelledRest(e[..k], f[..3], f[3..], g[0] as int, g[1..]);
      Parted(f, 3);
      assert g == [g[0]] + g[1..];
      Parted(e, k);
      Parted(s, k);
    }
  }

  lemma SpelledRest(p: string, x: string, r: string, n: nat, t: string)
    requires Free(p, {'%'}) && n < 256 && Escape(x, n) && Decode(r) == Some(t)
    ensures Decode(p + (x + r)) == Some(p + ([n as char] + t))
  {
    EscapeDecodes(p, x, n, r);
    Associate(p, x, r);
    Associate(p, [n as char], t);
  }

  /** A spelling of a concatenation is a concatenation of spellings. */
  lemma {:induction false} SpellsConcat(e: string, s: string, e': string, s': string)
    requires Spells(e, s) && Spells(e', s')
    ensures Spells(e + e', s + s')
    decreases |e|
  {
    if e == "" {
      assert e + e' == e' && s + s' == s';
    } else {
      var n := if e[0] == '%' then 3 else 1;
      assert (e + e')[..n] == e[..n] && (e + e')[n..] == e[n..] + e' && (s + s')[1..] == s[1..] + s';
      SpellsConcat(e[n..], s[1..], e', s');
    }
  }

  /** Text without a '%' spells itself. */
  lemma {:induction false} SpellsItself(s: string)
    requires Free(s, {'%'})
    ensures Spells(s, s)
  {
    if s != "" { SpellsItself(s[1..]); }
  }

  /** Every text of bytes can be spelled without any character of `cs`, if these are neither '%' nor digits. */
  lemma {:induction false} CanSpell(s: string, cs: set<char>) returns (e: string)
    requires forall i :: 0 <= i < |s| ==> s[i] as int < 256
    requires '%' !in cs && forall d :: 0 <= d < 16 ==> LOWER[d] !in cs
    ensures Spells(e, s) && Free(e, cs)
    decreases |s|
  {
    if s == "" {
      e := "";
    } else {
      var rest := CanSpell(s[1..], cs);
      var n := s[0] as int;
      if s[0] in cs || s[0] == '%' {
        e := ['%', LOWER[n / 16], LOWER[n % 16]] + rest;
        assert e[..3] == ['%', LOWER[n / 16], LOWER[n % 16]] && e[3..] == rest;
      } else {
        e := [s[0]] + rest;
        assert e[1..] == rest;
      }
    }
  }
}
