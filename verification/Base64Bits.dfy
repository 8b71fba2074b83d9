/** Base64 by numbers: four characters spell the number, in base 64, that three bytes spell in base 256. */
module Base64Bits {
  import opened Text
  import opened Base64

  /** The number that digits spell in a base, the highest digit first. */
  function Number(v: seq<nat>, base: nat): nat {
    if v == [] then 0 else Number(v[..|v| - 1], base) * base + v[|v| - 1]
  }

  /** The three bytes of group `g`, with zeros behind the end. */
  function Bytes(data: seq<Byte>, g: nat): (v: seq<nat>)
    ensures |v| == 3
  {
    seq(3, i requires 0 <= i < 3 => if 3 * g + i < |data| then data[3 * g + i] else 0)
  }

  /** As far as it reaches, group `g` of the text is in the characters for these four values. */
  predicate InCharacters(e: Encoding, text: seq<Byte>, g: nat, n: nat, v: seq<nat>) {
    && |v| == 4 && (forall j :: 0 <= j < 4 ==> v[j] < 64)
    && forall j :: 0 <= j < 4 && 4 * g + j < n && 4 * g + j < |text| ==> text[4 * g + j] == e.encoder[v[j]]
  }

  /** Group `g` of the text spells the number of group `g` of the data. */
  ghost predicate GroupSpells(e: Encoding, data: seq<Byte>, text: seq<Byte>, g: nat) {
    exists v: seq<nat> :: InCharacters(e, text, g, EncodedSize(|data|, false), v) && Number(v, 64) == Number(Bytes(data, g), 256)
  }

  lemma NumberOfFour(v: seq<nat>)
    requires |v| == 4
    ensures Number(v, 64) == Word4(v[0], v[1], v[2], v[3])
  {
    NumberOfThree(v[..3], 64);
  }

  lemma NumberOfThree(v: seq<nat>, base: nat)
    requires |v| == 3
    ensures Number(v, base) == (v[0] * base + v[1]) * base + v[2]
  {
    assert v[..2][..1] == v[..1] && v[..1][..0] == [];
    assert Number(v[..1], base) == v[0];
    assert Number(v[..2], base) == v[0] * base + v[1];
  }

  lemma NumberOfBytes(data: seq<Byte>, g: nat)
    ensures Number(Bytes(data, g), 256) == Word(At(data, 3 * g), At(data, 3 * g + 1), At(data, 3 * g + 2))
  {
    NumberOfThree(Bytes(data, g), 256);
  }

  function Sextets(data: seq<Byte>, g: nat): (v: seq<nat>) {
    [Sextet(data, g, 0), Sextet(data, g, 1), Sextet(data, g, 2), Sextet(data, g, 3)]
  }

  lemma SextetsNumber(data: seq<Byte>, g: nat)
    ensures Number(Sextets(data, g), 64) == Number(Bytes(data, g), 256)
  {
    NumberOfFour(Sextets(data, g));
    NumberOfBytes(data, g);
  }

  /** The base 64 digits of a number are unique. */
  lemma DigitsUnique(a: seq<nat>, b: seq<nat>)
    requires |a| == |b| == 4 && Number(a, 64) == Number(b, 64)
    requires forall j :: 0 <= j < 4 ==> a[j] < 64 && b[j] < 64
    ensures a == b
  {
    OneDigit(Number(a[..3], 64), Number(b[..3], 64), a[3], b[3]);
    NumberOfThree(a[..3], 64);
    NumberOfThree(b[..3], 64);
    OneDigit(a[0] * 64 + a[1], b[0] * 64 + b[1], a[2], b[2]);
    OneDigit(a[0], b[0], a[1], b[1]);
  }

  lemma OneDigit(x: nat, y: nat, d: nat, d': nat)
    requires x * 64 + d == y * 64 + d' && d < 64 && d' < 64
    ensures x == y && d == d'
  {
  }

  lemma GroupExactly(e: Encoding, data: seq<Byte>, text: seq<Byte>, g: nat)
    ensures GroupSpells(e, data, text, g) <==> InCharacters(e, text, g, EncodedSize(|data|, false), Sextets(data, g))
  {
    SextetsNumber(data, g);
    if v: seq<nat> :| InCharacters(e, text, g, EncodedSize(|data|, false), v) && Number(v, 64) == Number(Bytes(data, g), 256) {
      DigitsUnique(v, Sextets(data, g));
    }
  }

  lemma CharacterIs(e: Encoding, data: seq<Byte>, g: nat, j: nat)
    requires j < 4 && 4 * g + j < EncodedSize(|data|, false)
    ensures EncodedAt(e, data, 4 * g + j) == e.encoder[Sextets(data, g)[j]]
  {
    assert (4 * g + j) / 4 == g && (4 * g + j) % 4 == j;
  }

  lemma EncodedSpells(e: Encoding, data: seq<Byte>, g: nat)
    ensures GroupSpells(e, data, Encoded(e, data), g)
  {
    var text := Encoded(e, data);
    forall j | 0 <= j < 4 && 4 * g + j < EncodedSize(|data|, false) && 4 * g + j < |text|
      ensures text[4 * g + j] == e.encoder[Sextets(data, g)[j]]
    {
      CharacterIs(e, data, g, j);
    }
    GroupExactly(e, data, text, g);
  }

  lemma SpelledAt(e: Encoding, data: seq<Byte>, text: seq<Byte>, q: nat)
    requires q < |text| && q < EncodedSize(|data|, false) && GroupSpells(e, data, text, q / 4)
    ensures text[q] == EncodedAt(e, data, q)
  {
    var g, j := q / 4, q % 4;
    assert q == 4 * g + j;
    GroupExactly(e, data, text, g);
    CharacterIs(e, data, g, j);
    assert text[4 * g + j] == e.encoder[Sextets(data, g)[j]];
  }

  /** Each group of characters spells the number of a group of three bytes, and padding follows. */
  ghost predicate Spells(e: Encoding, data: seq<Byte>, text: seq<Byte>) {
    && |text| == EncodedSize(|data|, Padded(e))
    && (forall g :: 0 <= g && 4 * g < EncodedSize(|data|, false) ==> GroupSpells(e, data, text, g))
    && forall q :: EncodedSize(|data|, false) <= q < |text| ==> text[q] == e.padchar
  }

  /** A text is what `encode` gives for the data exactly when it has the size for them and spells their numbers. */
  lemma EncodedExactly(e: Encoding, data: seq<Byte>, text: seq<Byte>)
    ensures text == Encoded(e, data) <==> Spells(e, data, text)
  {
    if text == Encoded(e, data) {
      forall g | 0 <= g && 4 * g < EncodedSize(|data|, false)
        ensures GroupSpells(e, data, text, g)
      {
        EncodedSpells(e, data, g);
      }
    }
    if Spells(e, data, text) {
      forall q: nat | q < |text|
        ensures text[q] == EncodedAt(e, data, q)
      {
        if q < EncodedSize(|data|, false) { SpelledAt(e, data, text, q); }
      }
    }
  }

  /** The three bytes of any group of the text are the number that its characters spell. */
  lemma OctetsNumber(e: Encoding, text: seq<Byte>, t: nat)
    requires Valid(e) && t <= |text|
    ensures Number([Octet(e, text, t, 0), Octet(e, text, t, 1), Octet(e, text, t, 2)], 256) ==
            Number([Val(e, text, t, 0), Val(e, text, t, 1), Val(e, text, t, 2), Val(e, text, t, 3)], 64)
  {
    NumberOfThree([Octet(e, text, t, 0), Octet(e, text, t, 1), Octet(e, text, t, 2)], 256);
    NumberOfFour([Val(e, text, t, 0), Val(e, text, t, 1), Val(e, text, t, 2), Val(e, text, t, 3)]);
  }
}
