/**
  Which texts `decode` of `src/encoding/base64.cpp` reads as `encode` writes them.

  The decoder accepts more than the encoder writes: padding at the end of any group, groups cut short, and bits that
  are left over and dropped. `Strict` is what an encoded text looks like; a decoded text is the encoding of its bytes
  exactly when it is strict.
 */
module Base64Exact {
  import opened Base64
  import opened Collections
  import opened Text

  /** How many characters come before the padding at the end. */
  function Body(e: Encoding, text: seq<Byte>): (m: nat)
    requires Padded(e) ==> |text| >= 2
    ensures m <= |text|
  {
    if Padded(e) then |text| - Pads(e, text) else |text|
  }

  /** The bits of the last character that belong to no byte are zero. */
  predicate NothingLeft(e: Encoding, text: seq<Byte>, m: nat)
    requires Valid(e) && m <= |text|
  {
    && (m % 4 == 2 ==> e.decoder[text[m - 1]] % 16 == 0)
    && (m % 4 == 3 ==> e.decoder[text[m - 1]] % 4 == 0)
  }

  /** Characters of the alphabet, then padding to a whole group if the encoding has it; no group of one character, and
      no bits left over. */
  ghost predicate Strict(e: Encoding, text: seq<Byte>)
    requires Valid(e) && (Padded(e) ==> |text| >= 2)
  {
    var m := Body(e, text);
    EndsIn(e, text, m) && (Padded(e) ==> |text| % 4 == 0) && m % 4 != 1 && NothingLeft(e, text, m)
  }

  // ---------------------------------------------------------------- an encoding is strict

  lemma BodyOfEncoded(e: Encoding, data: seq<Byte>, text: seq<Byte>)
    requires Valid(e) && IsEncoded(e, data, text) && (Padded(e) ==> |text| >= 2)
    ensures Body(e, text) == EncodedSize(|data|, false)
  {
    TrailingSize(|data|);
    if Padded(e) {
      PadCount(e, data, text, |text| - 1);
      PadCount(e, data, text, |text| - 2);
    }
  }

  lemma LastBits(data: seq<Byte>, g: nat)
    ensures |data| == 3 * g + 1 ==> Sextet(data, g, 1) % 16 == 0
    ensures |data| == 3 * g + 2 ==> Sextet(data, g, 2) % 4 == 0
  {
  }

  lemma LastSextet(data: seq<Byte>, g: nat, j: nat, v: Byte)
    requires HasSextet(data, g, j, v) && |data| == 3 * g + j
    ensures j == 1 ==> v % 16 == 0
    ensures j == 2 ==> v % 4 == 0
  {
    assert Look(j);
    LastBits(data, g);
  }

  lemma EncodedLeavesNothing(e: Encoding, data: seq<Byte>, text: seq<Byte>)
    requires Valid(e) && Distinct(e.encoder) && IsEncoded(e, data, text)
    requires EncodedSize(|data|, false) <= |text|
    ensures NothingLeft(e, text, EncodedSize(|data|, false))
  {
    var g, j := |data| / 3, |data| % 3;
    TrailingSize(|data|);
    if j > 0 {
      CharComesBack(e, data, text, g, j);
      LastSextet(data, g, j, e.decoder[text[4 * g + j]]);
    }
  }

  lemma EncodedStrict(e: Encoding, data: seq<Byte>, text: seq<Byte>)
    requires Valid(e) && Distinct(e.encoder) && IsEncoded(e, data, text) && (Padded(e) ==> |text| >= 2)
    ensures Strict(e, text)
  {
    BodyOfEncoded(e, data, text);
    SizeKinds(|data|);
    EncodedCut(e, data, text);
    EncodedLeavesNothing(e, data, text);
    StrictIs(e, text, EncodedSize(|data|, false));
  }

  lemma SizeKinds(n: nat)
    ensures EncodedSize(n, true) % 4 == 0 && EncodedSize(n, false) % 4 != 1 && EncodedSize(n, false) <= EncodedSize(n, true)
  {
    TrailingSize(n);
  }

  lemma StrictIs(e: Encoding, text: seq<Byte>, m: nat)
    requires Valid(e) && (Padded(e) ==> |text| >= 2 && |text| % 4 == 0) && m == Body(e, text) && m % 4 != 1
    requires EndsIn(e, text, m) && NothingLeft(e, text, m)
    ensures Strict(e, text)
  {
  }

  // ---------------------------------------------------------------- a strict text is an encoding

  lemma StrictSafe(e: Encoding, text: seq<Byte>)
    requires Valid(e) && (Padded(e) ==> |text| >= 2) && Strict(e, text)
    ensures Safe(e, text) && AllOk(e, text, |text|)
  {
    WholeGroupsSafe(e, text);
    var m := Body(e, text);
    forall t | 0 <= t < |text| && t % 4 == 0
      ensures GroupOk(e, text, t)
    {
      CutLead(e, text, t / 4, m);
    }
  }

  lemma StrictSize(e: Encoding, text: seq<Byte>)
    requires Valid(e) && (Padded(e) ==> |text| >= 2) && Strict(e, text) && Safe(e, text)
    ensures EncodedSize(OutSize(e, text), false) == Body(e, text)
    ensures EncodedSize(OutSize(e, text), Padded(e)) == |text|
  {
    var n := |text|;
    TrailingSize(OutSize(e, text));
    if Padded(e) {
      assert n == n / 4 * 4;
    } else {
      assert n == n / 4 * 4 + n % 4;
    }
  }

  /** A byte of a group, and zero where the group has none. */
  lemma ByteOf(e: Encoding, text: seq<Byte>, data: seq<Byte>, g: nat, k: nat)
    requires Valid(e) && Safe(e, text) && data == DecodedBytes(e, text) && k < 3 && 4 * g < |text|
    requires |data| <= 3 * g + k ==> Lead(e, text, 4 * g) <= k + 1
    ensures At(data, 3 * g + k) == if k + 1 < Lead(e, text, 4 * g) then Octet(e, text, 4 * g, k) else 0
  {
    DecodedIs(e, text, g, k);
  }

  /** With no bits left over, the bytes a group does not have would be zero. */
  lemma NoBits(e: Encoding, text: seq<Byte>, g: nat, k: nat)
    requires Valid(e) && k < 3 && 4 * g < |text| && Lead(e, text, 4 * g) <= k + 1
    requires Lead(e, text, 4 * g) >= 2
    requires Lead(e, text, 4 * g) == 2 ==> Val(e, text, 4 * g, 1) % 16 == 0
    requires Lead(e, text, 4 * g) == 3 ==> Val(e, text, 4 * g, 2) % 4 == 0
    ensures Octet(e, text, 4 * g, k) == 0
  {
  }

  lemma GroupBits(e: Encoding, text: seq<Byte>, g: nat)
    requires Valid(e) && (Padded(e) ==> |text| >= 2) && Strict(e, text) && 4 * g < Body(e, text)
    ensures var lead := Lead(e, text, 4 * g); lead >= 2 && lead == (if 4 * g + 4 <= Body(e, text) then 4 else Body(e, text) - 4 * g)
    ensures Lead(e, text, 4 * g) == 2 ==> Val(e, text, 4 * g, 1) % 16 == 0
    ensures Lead(e, text, 4 * g) == 3 ==> Val(e, text, 4 * g, 2) % 4 == 0
  {
    CutLead(e, text, g, Body(e, text));
  }

  lemma BytesInGroup(n: nat, m: nat, g: nat, k: nat)
    requires EncodedSize(n, false) == m && 4 * g < m && k < 3 && n <= 3 * g + k
    ensures m <= 4 * g + k + 1
  {
    TrailingSize(n);
  }

  lemma AnyByteOf(e: Encoding, text: seq<Byte>, data: seq<Byte>, g: nat, k: nat)
    requires Valid(e) && (Padded(e) ==> |text| >= 2) && Strict(e, text) && Safe(e, text)
    requires data == DecodedBytes(e, text) && k < 3 && 4 * g < Body(e, text)
    ensures IsOctet(e, text, 4 * g, k, At(data, 3 * g + k))
  {
    StrictSize(e, text);
    GroupBits(e, text, g);
    if |data| <= 3 * g + k { BytesInGroup(|data|, Body(e, text), g, k); }
    ByteOf(e, text, data, g, k);
    if Lead(e, text, 4 * g) <= k + 1 { NoBits(e, text, g, k); }
  }

  lemma CutJoins(a: Byte, b: Byte, c: Byte, d: Byte)
    requires a < 64 && b < 64 && c < 64 && d < 64
    ensures Joined(a, b, 0) / 4 == a
    ensures Joined(a, b, 0) % 4 * 16 + Joined(b, c, 1) / 16 == b
    ensures Joined(b, c, 1) % 16 * 4 + Joined(c, d, 2) / 64 == c
    ensures Joined(c, d, 2) % 64 == d
  {
  }

  lemma SextetsOf(data: seq<Byte>, g: nat, a: Byte, b: Byte, c: Byte, d: Byte)
    requires a < 64 && b < 64 && c < 64 && d < 64
    requires At(data, 3 * g) == Joined(a, b, 0) && At(data, 3 * g + 1) == Joined(b, c, 1)
    requires At(data, 3 * g + 2) == Joined(c, d, 2)
    ensures HasSextet(data, g, 0, a) && HasSextet(data, g, 1, b) && HasSextet(data, g, 2, c) && HasSextet(data, g, 3, d)
  {
    CutJoins(a, b, c, d);
  }

  lemma OctetIs(e: Encoding, text: seq<Byte>, t: nat, k: nat, b: Byte)
    requires Valid(e) && t <= |text| && k < 3 && IsOctet(e, text, t, k, b)
    ensures b == Joined(Val(e, text, t, k), Val(e, text, t, k + 1), k)
  {
    assert Look(k);
  }

  /** The sextets of a group's bytes are the values of its characters. */
  lemma SextetOf(e: Encoding, text: seq<Byte>, data: seq<Byte>, g: nat, j: nat)
    requires Valid(e) && 4 * g < |text| && j < 4
    requires IsOctet(e, text, 4 * g, 0, At(data, 3 * g)) && IsOctet(e, text, 4 * g, 1, At(data, 3 * g + 1))
    requires IsOctet(e, text, 4 * g, 2, At(data, 3 * g + 2))
    ensures HasSextet(data, g, j, Val(e, text, 4 * g, j))
  {
    OctetIs(e, text, 4 * g, 0, At(data, 3 * g));
    OctetIs(e, text, 4 * g, 1, At(data, 3 * g + 1));
    OctetIs(e, text, 4 * g, 2, At(data, 3 * g + 2));
    SextetsOf(data, g, Val(e, text, 4 * g, 0), Val(e, text, 4 * g, 1), Val(e, text, 4 * g, 2), Val(e, text, 4 * g, 3));
  }

  lemma CharOf(e: Encoding, c: Byte)
    requires Valid(e) && e.decoder[c] != INVALID
    ensures e.decoder[c] < 64 && e.encoder[e.decoder[c]] == c
  {
  }

  lemma CharIsRight(e: Encoding, data: seq<Byte>, g: nat, j: nat, c: Byte)
    requires Valid(e) && e.decoder[c] != INVALID && HasSextet(data, g, j, e.decoder[c])
    requires j < 4 && 4 * g + j < EncodedSize(|data|, false)
    ensures Right(e, data, 4 * g + j, c)
  {
    assert Look(j);
    CharOf(e, c);
    assert (4 * g + j) / 4 == g && (4 * g + j) % 4 == j;
  }

  lemma ValOf(e: Encoding, text: seq<Byte>, g: nat, j: nat)
    requires Valid(e) && (Padded(e) ==> |text| >= 2) && Strict(e, text) && j < 4 && 4 * g + j < Body(e, text)
    ensures e.decoder[text[4 * g + j]] != INVALID && Val(e, text, 4 * g, j) == e.decoder[text[4 * g + j]]
  {
    GroupBits(e, text, g);
  }

  lemma StrictRight(e: Encoding, text: seq<Byte>, data: seq<Byte>, g: nat, j: nat)
    requires Valid(e) && (Padded(e) ==> |text| >= 2) && Strict(e, text) && Safe(e, text)
    requires data == DecodedBytes(e, text) && j < 4 && 4 * g + j < Body(e, text)
    ensures Right(e, data, 4 * g + j, text[4 * g + j])
  {
    StrictSize(e, text);
    AnyByteOf(e, text, data, g, 0);
    AnyByteOf(e, text, data, g, 1);
    AnyByteOf(e, text, data, g, 2);
    SextetOf(e, text, data, g, j);
    ValOf(e, text, g, j);
    CharIsRight(e, data, g, j, text[4 * g + j]);
  }

  lemma StrictPad(e: Encoding, text: seq<Byte>, data: seq<Byte>, q: nat)
    requires Valid(e) && (Padded(e) ==> |text| >= 2) && Body(e, text) <= q < |text| && EndsIn(e, text, Body(e, text))
    requires EncodedSize(|data|, false) == Body(e, text)
    ensures Right(e, data, q, text[q])
  {
    assert text[q] == e.padchar;
    PadIsRight(e, data, q);
  }

  lemma StrictAt(e: Encoding, text: seq<Byte>, data: seq<Byte>, q: nat)
    requires Valid(e) && (Padded(e) ==> |text| >= 2) && Strict(e, text) && Safe(e, text)
    requires data == DecodedBytes(e, text) && q < |text|
    ensures Right(e, data, q, text[q])
  {
    if q < Body(e, text) {
      var g, j := q / 4, q % 4;
      assert q == 4 * g + j;
      StrictRight(e, text, data, g, j);
    } else {
      StrictSize(e, text);
      StrictPad(e, text, data, q);
    }
  }

  lemma StrictEncoded(e: Encoding, text: seq<Byte>, data: seq<Byte>)
    requires Valid(e) && (Padded(e) ==> |text| >= 2) && Strict(e, text) && Safe(e, text)
    requires data == DecodedBytes(e, text)
    ensures text == Encoded(e, data)
  {
    StrictSize(e, text);
    forall q | 0 <= q < |text|
      ensures Right(e, data, q, text[q])
    {
      StrictAt(e, text, data, q);
    }
    AllRight(e, data, text);
  }

  // ---------------------------------------------------------------- the law

  /** Encoding gives a decoded text back exactly when the text is strict; strict texts are decoded. */
  lemma ReencodesExactly(e: Encoding, text: seq<Byte>)
    requires Valid(e) && Distinct(e.encoder) && (Padded(e) ==> |text| >= 2)
    ensures Strict(e, text) ==> Safe(e, text) && Decoded(e, text).Some?
    ensures Safe(e, text) && Decoded(e, text).Some? ==> (Encoded(e, Decoded(e, text).value) == text <==> Strict(e, text))
  {
    if Strict(e, text) {
      StrictSafe(e, text);
      StrictEncoded(e, text, DecodedBytes(e, text));
    } else if Safe(e, text) && Decoded(e, text).Some? && Encoded(e, Decoded(e, text).value) == text {
      var data := Decoded(e, text).value;
      EncodedIs(e, data);
      EncodedStrict(e, data, text);
    }
  }

  lemma PairRead(e: Encoding, text: seq<Byte>, t: nat, x: Byte, y: Byte)
    requires Valid(e) && Distinct(e.encoder) && Padded(e) && x < 64 && y < 64 && t + 4 <= |text|
    requires text[t] == e.encoder[x] && text[t + 1] == e.encoder[y] && text[t + 2] == text[t + 3] == e.padchar
    ensures GroupOk(e, text, t) && Lead(e, text, t) == 2 && Octet(e, text, t, 0) == Joined(x, y, 0)
  {
    DecoderInverts(e, x);
    DecoderInverts(e, y);
    assert e.encoder[..64] == e.encoder;
    StopAt(e, text, t, t + 2, t + 4);
  }

  lemma PairBytes(e: Encoding, text: seq<Byte>, g: nat)
    requires Valid(e) && 4 * g < |text| && Lead(e, text, 4 * g) == 2
    ensures Fits(e, text, 3 * g, Octet(e, text, 4 * g, 0)) && Fits(e, text, 3 * g + 1, 0) && Fits(e, text, 3 * g + 2, 0)
  {
    OctetFits(e, text, g, 0, 3 * g, Octet(e, text, 4 * g, 0));
    OctetFits(e, text, g, 1, 3 * g + 1, 0);
    OctetFits(e, text, g, 2, 3 * g + 2, 0);
  }

  /** Any text with padding in a group that is not the last, if it is decoded at all: what the group lacks is read as
      zero bytes, and encoding does not give the text back. */
  lemma PaddingInside(e: Encoding, text: seq<Byte>, g: nat)
    requires Valid(e) && Padded(e) && |text| >= 2 && Safe(e, text) && Decoded(e, text).Some?
    requires 4 * g + 4 < |text| && Lead(e, text, 4 * g) < 4
    ensures var data := Decoded(e, text).value;
      && (|text| % 4 == 0 ==> 3 * g + 3 <= |data|)
      && forall p :: 3 * g <= p < 3 * g + 3 && p < |data| && Lead(e, text, 4 * g) <= p - 3 * g + 1 ==> data[p] == 0
    ensures !Strict(e, text)
  {
    AllLacking(e, text, g, Decoded(e, text).value);
    if |text| % 4 == 0 { HasBytes(e, text, g); }
    ShortGroup(e, text, g);
  }

  lemma AllLacking(e: Encoding, text: seq<Byte>, g: nat, data: seq<Byte>)
    requires Valid(e) && Safe(e, text) && data == DecodedBytes(e, text) && 4 * g < |text|
    ensures forall p :: 3 * g <= p < 3 * g + 3 && p < |data| && Lead(e, text, 4 * g) <= p - 3 * g + 1 ==> data[p] == 0
  {
    forall p | 3 * g <= p < 3 * g + 3 && p < |data| && Lead(e, text, 4 * g) <= p - 3 * g + 1
      ensures data[p] == 0
    {
      Lacking(e, text, g, p - 3 * g);
    }
  }

  lemma HasBytes(e: Encoding, text: seq<Byte>, g: nat)
    requires |e.decoder| == 256 && Padded(e) && Safe(e, text) && 4 * g + 4 < |text| && |text| % 4 == 0
    ensures 3 * g + 3 <= OutSize(e, text)
  {
    assert |text| / 4 >= g + 2;
  }

  lemma Lacking(e: Encoding, text: seq<Byte>, g: nat, k: nat)
    requires Valid(e) && Safe(e, text) && k < 3 && 4 * g < |text| && Lead(e, text, 4 * g) <= k + 1 && 3 * g + k < OutSize(e, text)
    ensures DecodedBytes(e, text)[3 * g + k] == 0
  {
    DecodedIs(e, text, g, k);
  }

  lemma ShortGroup(e: Encoding, text: seq<Byte>, g: nat)
    requires Valid(e) && (Padded(e) ==> |text| >= 2) && 4 * g + 4 < |text| && Lead(e, text, 4 * g) < 4
    ensures !Strict(e, text)
  {
    if Strict(e, text) { CutLead(e, text, g, Body(e, text)); }
  }

  /** Such texts are decoded: two padded pairs, for instance. */
  lemma PaddedPairs(e: Encoding, x: Byte, y: Byte)
    requires Valid(e) && Distinct(e.encoder) && Padded(e) && x < 64 && y < 64
    ensures var text := [e.encoder[x], e.encoder[y], e.padchar, e.padchar, e.encoder[x], e.encoder[y], e.padchar, e.padchar];
      && Safe(e, text) && !Strict(e, text)
      && Decoded(e, text) == Some([Joined(x, y, 0), 0, 0, Joined(x, y, 0)])
  {
    var text := [e.encoder[x], e.encoder[y], e.padchar, e.padchar, e.encoder[x], e.encoder[y], e.padchar, e.padchar];
    WholeGroupsSafe(e, text);
    PairRead(e, text, 0, x, y);
    PairRead(e, text, 4, x, y);
    PairBytes(e, text, 0);
    PairBytes(e, text, 1);
    AllOkNext(e, text, 0);
    AllOkNext(e, text, 4);
    AllFit(e, text, [Joined(x, y, 0), 0, 0, Joined(x, y, 0)]);
    assert e.encoder[..64] == e.encoder;
    assert e.decoder[text[2]] == INVALID;
  }
}
