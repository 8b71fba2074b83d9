/**
  `encoding::base64` of `include/encoding/base64.hpp` and `src/encoding/base64.cpp`.

  Bytes and characters are numbers from 0 to 255. The source combines bytes into a 32-bit word with shifts and
  bitwise or; the operands never overlap, so the model writes sums and products. What the loops compute is stated
  position by position: character `q` holds bits 6q to 6q+5 of the data, byte `p` holds bits 8p to 8p+7.
 */
module Base64 {
  import opened Text
  import opened Collections

  type Byte = x: int | 0 <= x < 256

  const INVALID: Byte := 0xff

  function EncodedSize(n: nat, padding: bool): nat {
    if padding then (n + 2) / 3 * 4 else (n * 8 + 5) / 6
  }

  function DecodedSize(n: nat, padding: bool): nat {
    if padding then n / 4 * 3 else n * 6 / 8
  }

  // ---------------------------------------------------------------- the alphabet

  type Alphabet = a: seq<Byte> | |a| == 64 witness seq(64, i => 0)

  /** The last position of a character among the first `n` of the alphabet. */
  function Position(a: Alphabet, n: nat, c: Byte): (r: Byte)
    requires n <= 64
    ensures r == INVALID || (r < n && a[r] == c)
    ensures r == INVALID <==> c !in a[..n]
  {
    if n == 0 then INVALID
    else
      assert a[..n] == a[..n - 1] + [a[n - 1]];
      if a[n - 1] == c then n - 1 else Position(a, n - 1, c)
  }

  /** The loop of `build_decoder`: a character that occurs twice keeps its last position. */
  method FillDecoder(a: Alphabet) returns (out: array<Byte>)
    ensures out.Length == 256 && forall c: Byte :: out[c] == Position(a, |a|, c)
  {
    out := new Byte[256](_ => INVALID);
    for i := 0 to 64
      invariant forall c: Byte :: out[c] == Position(a, i, c)
    {
      out[a[i]] := i;
    }
  }

  function DecoderOf(a: Alphabet): seq<Byte> {
    seq(256, c requires 0 <= c < 256 => Position(a, |a|, c))
  }

  /** The shared cache of decoders. */
  class Decoders {
    var cache: map<Alphabet, seq<Byte>>

    ghost predicate Valid()
      reads this
    {
      forall a :: a in cache ==> cache[a] == DecoderOf(a)
    }

    constructor ()
      ensures Valid()
    {
      cache := map[];
    }

    /** Cached or not, the decoder is the one of the alphabet that is asked for. */
    method Build(a: Alphabet) returns (r: seq<Byte>)
      requires Valid()
      modifies this
      ensures Valid() && r == DecoderOf(a)
    {
      if a in cache {
        r := cache[a];
      } else {
        var out := FillDecoder(a);
        r := out[..];
        assert r == DecoderOf(a);
        cache := cache[a := r];
      }
    }
  }

  datatype Encoding = Encoding(encoder: Alphabet, decoder: seq<Byte>, padchar: Byte)

  function Padded(e: Encoding): bool {
    e.padchar != 0
  }

  ghost predicate Valid(e: Encoding) {
    e.decoder == DecoderOf(e.encoder) && (Padded(e) ==> e.padchar !in e.encoder)
  }

  // ---------------------------------------------------------------- encoding

  /** A byte of the data, with zeros after its end. */
  function At(data: seq<Byte>, i: nat): Byte {
    if i < |data| then data[i] else 0
  }

  /** Bits 6j to 6j+5 of the group of three bytes `g`. */
  function Sextet(data: seq<Byte>, g: nat, j: nat): (r: nat)
    ensures r < 64
  {
    match j
    case 0 => At(data, 3 * g) / 4
    case 1 => At(data, 3 * g) % 4 * 16 + At(data, 3 * g + 1) / 16
    case 2 => At(data, 3 * g + 1) % 16 * 4 + At(data, 3 * g + 2) / 64
    case _ => At(data, 3 * g + 2) % 64
  }

  function EncodedAt(e: Encoding, data: seq<Byte>, q: nat): Byte {
    if q < EncodedSize(|data|, false) then e.encoder[Sextet(data, q / 4, q % 4)] else e.padchar
  }

  /** The specification of `encode`. */
  function Encoded(e: Encoding, data: seq<Byte>): seq<Byte> {
    seq(EncodedSize(|data|, Padded(e)), q requires 0 <= q => EncodedAt(e, data, q))
  }

  /** Two characters for a single byte left, three for two. */
  lemma TrailingSize(n: nat)
    ensures EncodedSize(n, false) == n / 3 * 4 + (if n % 3 == 0 then 0 else n % 3 + 1)
    ensures EncodedSize(n, true) == n / 3 * 4 + (if n % 3 == 0 then 0 else 4)
  {
    assert n == n / 3 * 3 + n % 3;
  }

  function Word(a: int, b: int, c: int): int {
    a * 0x10000 + b * 0x100 + c
  }

  /** The six bits that the source shifts and masks out of the word. */
  function Cut(w: int, j: nat): (r: nat)
    ensures r < 64
  {
    match j
    case 0 => w / 0x40000 % 64
    case 1 => w / 0x1000 % 64
    case 2 => w / 0x40 % 64
    case _ => w % 64
  }

  lemma By64(w: int, x: int, r: int)
    requires w == x * 64 + r && 0 <= r < 64
    ensures w / 64 == x && w % 64 == r
  {
  }

  lemma By4096(w: int, x: int, r: int)
    requires w == x * 4096 + r && 0 <= r < 4096
    ensures w / 4096 == x
  {
  }

  lemma FirstCut(a: Byte, b: Byte, c: Byte)
    ensures Cut(Word(a, b, c), 0) == a / 4
  {
    assert Word(a, b, c) == a / 4 * 0x40000 + Word(a % 4, b, c);
  }

  lemma SecondCut(a: Byte, b: Byte, c: Byte)
    ensures Cut(Word(a, b, c), 1) == a % 4 * 16 + b / 16
  {
    var x: int, y: int := a * 16 + b / 16, a % 4 * 16 + b / 16;
    By4096(Word(a, b, c), x, b % 16 * 0x100 + c);
    By64(x, a / 4, y);
  }

  lemma ThirdCut(a: Byte, b: Byte, c: Byte)
    ensures Cut(Word(a, b, c), 2) == b % 16 * 4 + c / 64
  {
    var x: int, y: int := a * 0x400 + b * 4 + c / 64, b % 16 * 4 + c / 64;
    By64(Word(a, b, c), x, c % 64);
    By64(x, a * 16 + b / 16, y);
  }

  lemma LastCut(a: Byte, b: Byte, c: Byte)
    ensures Cut(Word(a, b, c), 3) == c % 64
  {
    By64(Word(a, b, c), a * 0x400 + b * 4 + c / 64, c % 64);
  }

  /** The shifts and masks of the source cut the word where `Sextet` does. */
  lemma WordSextet(data: seq<Byte>, g: nat, j: nat)
    requires j < 4
    ensures Cut(Word(At(data, 3 * g), At(data, 3 * g + 1), At(data, 3 * g + 2)), j) == Sextet(data, g, j)
  {
    var a, b, c := At(data, 3 * g), At(data, 3 * g + 1), At(data, 3 * g + 2);
    match j
    case 0 => FirstCut(a, b, c);
    case 1 => SecondCut(a, b, c);
    case 2 => ThirdCut(a, b, c);
    case _ => LastCut(a, b, c);
  }

  /** Character `c` is right for position `q`. */
  ghost predicate Right(e: Encoding, data: seq<Byte>, q: nat, c: Byte) {
    forall k: nat {:trigger Look(k)} :: k == q && Look(k) ==> c == EncodedAt(e, data, q)
  }

  lemma CutIsRight(e: Encoding, data: seq<Byte>, g: nat, j: nat)
    requires j < 4 && 4 * g + j < EncodedSize(|data|, false)
    ensures Right(e, data, 4 * g + j,
                  e.encoder[Cut(Word(At(data, 3 * g), At(data, 3 * g + 1), At(data, 3 * g + 2)), j)])
  {
    WordSextet(data, g, j);
    assert (4 * g + j) / 4 == g && (4 * g + j) % 4 == j;
  }

  lemma PadIsRight(e: Encoding, data: seq<Byte>, q: nat)
    requires EncodedSize(|data|, false) <= q
    ensures Right(e, data, q, e.padchar)
  {
  }

  lemma AllRight(e: Encoding, data: seq<Byte>, s: seq<Byte>)
    requires |s| == EncodedSize(|data|, Padded(e)) && forall q :: 0 <= q < |s| ==> Right(e, data, q, s[q])
    ensures s == Encoded(e, data)
  {
    forall q: nat | q < |s|
      ensures s[q] == EncodedAt(e, data, q)
    {
      assert Right(e, data, q, s[q]) && Look(q);
    }
  }

  /** Stores one character of a group. */
  method PutChar(e: Encoding, out: array<Byte>, data: seq<Byte>, ghost g: nat, j: nat, o: nat, combined: int)
    requires j < 4 && o == 4 * g + j < EncodedSize(|data|, false) && o < out.Length
    requires combined == Word(At(data, 3 * g), At(data, 3 * g + 1), At(data, 3 * g + 2))
    modifies out
    ensures Right(e, data, o, out[o])
    ensures forall q :: 0 <= q < out.Length && q != o ==> out[q] == old(out[q])
  {
    CutIsRight(e, data, g, j);
    out[o] := e.encoder[Cut(combined, j)];
  }

  method EncodeTriplet(e: Encoding, out: array<Byte>, o: nat, data: seq<Byte>, i: nat, ghost g: nat)
    requires i == 3 * g && o == 4 * g && i + 3 <= |data| && o + 4 <= out.Length && o + 4 <= EncodedSize(|data|, false)
    modifies out
    ensures forall q :: o <= q < o + 4 ==> Right(e, data, q, out[q])
    ensures forall q :: 0 <= q < out.Length && !(o <= q < o + 4) ==> out[q] == old(out[q])
  {
    var combined := Word(data[i], data[i + 1], data[i + 2]);
    PutChar(e, out, data, g, 0, o, combined);
    PutChar(e, out, data, g, 1, o + 1, combined);
    PutChar(e, out, data, g, 2, o + 2, combined);
    PutChar(e, out, data, g, 3, o + 3, combined);
  }

  method EncodeTrailing(e: Encoding, out: array<Byte>, o: nat, data: seq<Byte>, i: nat, ghost g: nat) returns (wrote: nat)
    requires i == 3 * g && o == 4 * g && i <= |data| < i + 3 && EncodedSize(|data|, false) <= out.Length
    modifies out
    ensures o + wrote == EncodedSize(|data|, false)
    ensures forall q :: o <= q < o + wrote ==> Right(e, data, q, out[q])
    ensures forall q :: 0 <= q < out.Length && !(o <= q < o + wrote) ==> out[q] == old(out[q])
  {
    TrailingSize(|data|);
    match |data| - i
    case 1 =>
      var combined := Word(data[i], 0, 0);
      PutChar(e, out, data, g, 0, o, combined);
      PutChar(e, out, data, g, 1, o + 1, combined);
      wrote := 2;
    case 2 =>
      var combined := Word(data[i], data[i + 1], 0);
      PutChar(e, out, data, g, 0, o, combined);
      PutChar(e, out, data, g, 1, o + 1, combined);
      PutChar(e, out, data, g, 2, o + 2, combined);
      wrote := 3;
    case _ =>
      wrote := 0;
  }

  /** Writes every position of its exactly sized output. */
  method Encode(e: Encoding, data: seq<Byte>) returns (out: array<Byte>)
    ensures out[..] == Encoded(e, data)
  {
    out := new Byte[EncodedSize(|data|, Padded(e))](_ => e.padchar);
    TrailingSize(|data|);
    var o, i := 0, 0;
    ghost var g := 0;
    var blocks := |data| / 3 * 3;
    while i < blocks
      invariant 0 <= g <= |data| / 3 && i == 3 * g && o == 4 * g
      invariant forall q :: 0 <= q < o ==> Right(e, data, q, out[q])
    {
      EncodeTriplet(e, out, o, data, i, g);
      i := i + 3;
      o := o + 4;
      g := g + 1;
    }
    var wrote := EncodeTrailing(e, out, o, data, i, g);
    if e.padchar != 0 {
      for q := o + wrote to out.Length
        invariant forall k :: 0 <= k < q ==> Right(e, data, k, out[k])
      {
        PadIsRight(e, data, q);
        out[q] := e.padchar;
      }
    }
    AllRight(e, data, out[..]);
  }

  // ---------------------------------------------------------------- decoding

  /** The end of the group at `t`. */
  function End(text: seq<Byte>, t: nat): nat
    requires t <= |text|
  {
    if |text| - t < 4 then |text| else t + 4
  }

  /** The first position from `i` to `end` that does not hold a character of the alphabet. */
  function Stop(e: Encoding, text: seq<Byte>, i: nat, end: nat): (r: nat)
    requires |e.decoder| == 256 && i <= end <= |text|
    ensures i <= r <= end
    ensures forall k :: i <= k < r ==> e.decoder[text[k]] != INVALID
    ensures r < end ==> e.decoder[text[r]] == INVALID
    decreases end - i
  {
    if i == end || e.decoder[text[i]] == INVALID then i else Stop(e, text, i + 1, end)
  }

  /** How many characters of the group at `t` come before one that is not in the alphabet. */
  function Lead(e: Encoding, text: seq<Byte>, t: nat): (r: nat)
    requires |e.decoder| == 256 && t <= |text|
    ensures r <= 4
  {
    Stop(e, text, t, End(text, t)) - t
  }

  /** A group is characters of the alphabet, then padding if the encoding has it. */
  predicate GroupOk(e: Encoding, text: seq<Byte>, t: nat)
    requires |e.decoder| == 256 && t <= |text|
  {
    var stop := Stop(e, text, t, End(text, t));
    stop == End(text, t) || (Padded(e) && forall k :: stop <= k < End(text, t) ==> text[k] == e.padchar)
  }

  /** The value of a character of the group, 0 for padding. */
  function Val(e: Encoding, text: seq<Byte>, t: nat, j: nat): (r: Byte)
    requires Valid(e) && t <= |text|
    ensures r < 64
  {
    if j < Lead(e, text, t) then e.decoder[text[t + j]] else 0
  }

  /** Byte `k` of a group of three from the two sextets that hold its bits. */
  function Joined(x: Byte, y: Byte, k: nat): (r: Byte)
    requires x < 64 && y < 64
  {
    match k
    case 0 => x * 4 + y / 16
    case 1 => x % 16 * 16 + y / 4
    case _ => x % 4 * 64 + y
  }

  /** Byte `k` of the group at `t`. */
  function Octet(e: Encoding, text: seq<Byte>, t: nat, k: nat): Byte
    requires Valid(e) && t <= |text|
  {
    Joined(Val(e, text, t, k), Val(e, text, t, k + 1), k)
  }

  function DecodedAt(e: Encoding, text: seq<Byte>, p: nat): Byte
    requires Valid(e)
  {
    var t := p / 3 * 4;
    if t < |text| && p % 3 + 1 < Lead(e, text, t) then Octet(e, text, t, p % 3) else 0
  }

  function IsPad(e: Encoding, c: Byte): nat {
    if c == e.padchar then 1 else 0
  }

  /** How many of the last two characters are padding. */
  function Pads(e: Encoding, text: seq<Byte>): (n: nat)
    requires |text| >= 2
    ensures n <= 2
  {
    IsPad(e, text[|text| - 1]) + IsPad(e, text[|text| - 2])
  }

  /** The groups that start before `n` are well formed. */
  predicate AllOk(e: Encoding, text: seq<Byte>, n: nat)
    requires |e.decoder| == 256 && n <= |text|
  {
    forall t :: 0 <= t < n && t % 4 == 0 ==> GroupOk(e, text, t)
  }

  lemma AllOkNext(e: Encoding, text: seq<Byte>, t: nat)
    requires |e.decoder| == 256 && t < |text| && t % 4 == 0 && AllOk(e, text, t) && GroupOk(e, text, t)
    ensures AllOk(e, text, End(text, t))
  {
    assert forall k :: t < k < t + 4 ==> k % 4 != 0;
  }

  /** The group with number `g` is reached and writes something. */
  ghost predicate Writes(e: Encoding, text: seq<Byte>, g: nat)
    requires |e.decoder| == 256
  {
    4 * g < |text| && AllOk(e, text, 4 * g) && GroupOk(e, text, 4 * g) && Lead(e, text, 4 * g) >= 2
  }

  /** With padding, the output has a size and every group that is reached writes inside it. */
  ghost predicate InRange(e: Encoding, text: seq<Byte>)
    requires |e.decoder| == 256 && |text| >= 2
  {
    var size := DecodedSize(|text|, true) - Pads(e, text);
    0 <= size && forall g: nat :: Writes(e, text, g) ==> 3 * g + Lead(e, text, 4 * g) - 1 <= size
  }

  /** There is more padding at the end than room; or the last group of four has more bytes than the padding behind it
      leaves; or characters that are left over make a byte. Groups count only if they are reached. */
  predicate Overruns(e: Encoding, text: seq<Byte>)
    requires |e.decoder| == 256 && |text| >= 2
  {
    var m := |text| / 4;
    || Pads(e, text) > 3 * m
    || (m > 0 && AllOk(e, text, 4 * m) && Lead(e, text, 4 * (m - 1)) + Pads(e, text) > 4)
    || (4 * m < |text| && AllOk(e, text, |text|) && Lead(e, text, 4 * m) >= 2)
  }

  lemma AllOkMonotone(e: Encoding, text: seq<Byte>, a: nat, b: nat)
    requires |e.decoder| == 256 && a <= b <= |text| && AllOk(e, text, b)
    ensures AllOk(e, text, a)
  {
  }

  lemma LastWrites(e: Encoding, text: seq<Byte>, m: nat)
    requires |e.decoder| == 256 && 0 < m && 4 * m <= |text| && Lead(e, text, 4 * (m - 1)) >= 2
    ensures Writes(e, text, m - 1) <==> AllOk(e, text, 4 * m)
  {
    if AllOk(e, text, 4 * m) {
      AllOkMonotone(e, text, 4 * (m - 1), 4 * m);
    } else if Writes(e, text, m - 1) {
      AllOkNext(e, text, 4 * (m - 1));
    }
  }

  lemma RestWrites(e: Encoding, text: seq<Byte>, m: nat)
    requires |e.decoder| == 256 && m == |text| / 4 && 4 * m < |text| && Lead(e, text, 4 * m) >= 2
    ensures Writes(e, text, m) <==> AllOk(e, text, |text|)
  {
    if AllOk(e, text, |text|) {
      AllOkMonotone(e, text, 4 * m, |text|);
    } else if Writes(e, text, m) {
      AllOkNext(e, text, 4 * m);
    }
  }

  /** With padding, a text of at least two characters is decoded inside the output exactly when it does not overrun:
      only the last group of four, the padding at the end and the characters left over matter. */
  lemma OverrunsExactly(e: Encoding, text: seq<Byte>)
    requires |e.decoder| == 256 && |text| >= 2
    ensures InRange(e, text) <==> !Overruns(e, text)
  {
    var m, n := |text| / 4, |text|;
    if m > 0 && Lead(e, text, 4 * (m - 1)) >= 2 { LastWrites(e, text, m); }
    if 4 * m < n && Lead(e, text, 4 * m) >= 2 { RestWrites(e, text, m); }
    if !Overruns(e, text) {
      forall g: nat | Writes(e, text, g)
        ensures 3 * g + Lead(e, text, 4 * g) - 1 <= 3 * m - Pads(e, text)
      {
        if g == m {
          assert false;
        } else if g == m - 1 {
          assert Lead(e, text, 4 * (m - 1)) + Pads(e, text) <= 4;
        }
      }
    }
  }

  /** The texts that `decode` may be given: with padding it looks at the last two characters and must not overrun. */
  predicate Safe(e: Encoding, text: seq<Byte>)
    requires |e.decoder| == 256
  {
    Padded(e) ==> |text| >= 2 && !Overruns(e, text)
  }

  function OutSize(e: Encoding, text: seq<Byte>): nat
    requires |e.decoder| == 256 && Safe(e, text)
  {
    if Padded(e) then DecodedSize(|text|, true) - Pads(e, text) else DecodedSize(|text|, false)
  }

  /** Whole groups of four are safe, whatever they hold. */
  lemma WholeGroupsSafe(e: Encoding, text: seq<Byte>)
    requires Valid(e) && (Padded(e) ==> text != [] && |text| % 4 == 0)
    ensures Safe(e, text)
  {
    if Padded(e) {
      var t := |text| - 4;
      var stop := Stop(e, text, t, t + 4);
      assert stop > t + 3 ==> text[t + 3] in e.encoder;
      assert stop > t + 2 ==> text[t + 2] in e.encoder;
    }
  }

  function DecodedBytes(e: Encoding, text: seq<Byte>): seq<Byte>
    requires Valid(e) && Safe(e, text)
  {
    seq(OutSize(e, text), p requires 0 <= p => DecodedAt(e, text, p))
  }

  /** The specification of `decode`. */
  function Decoded(e: Encoding, text: seq<Byte>): Option<seq<Byte>>
    requires Valid(e) && Safe(e, text)
  {
    if AllOk(e, text, |text|) then Some(DecodedBytes(e, text)) else None
  }

  /** What a group writes is inside the output. */
  lemma InBounds(e: Encoding, text: seq<Byte>, g: nat)
    requires Valid(e) && Safe(e, text) && Writes(e, text, g)
    ensures 3 * g + Lead(e, text, 4 * g) - 1 <= OutSize(e, text)
  {
    if Padded(e) { OverrunsExactly(e, text); }
  }

  /** The loop over the characters of a group. */
  method ReadGroup(e: Encoding, text: seq<Byte>, t: nat) returns (valid: bool, buf: seq<Byte>, buflen: nat)
    requires Valid(e) && t < |text|
    ensures valid == GroupOk(e, text, t) && buflen == Lead(e, text, t)
    ensures |buf| == 4 && forall j :: 0 <= j < 4 ==> buf[j] == Val(e, text, t, j)
  {
    buf, buflen := [0, 0, 0, 0], 0;
    var lookahead := if |text| - t < 4 then |text| - t else 4;
    var i := 0;
    ghost var stop := Stop(e, text, t, t + lookahead);
    while i < lookahead
      invariant 0 <= i == buflen <= lookahead && |buf| == 4
      invariant stop == Stop(e, text, t + i, t + lookahead)
      invariant forall j :: 0 <= j < 4 ==> buf[j] == if j < i then e.decoder[text[t + j]] else 0
    {
      var c := text[t + i];
      var dec := e.decoder[c];
      if dec == INVALID {
        if e.padchar != 0 { i := SkipPadding(e, text, t, i, lookahead); }
        break;
      }
      buf := buf[i := dec];
      buflen := buflen + 1;
      i := i + 1;
    }
    valid := i >= lookahead;
  }

  method SkipPadding(e: Encoding, text: seq<Byte>, t: nat, from: nat, lookahead: nat) returns (i: nat)
    requires t + lookahead <= |text| && from < lookahead
    ensures from <= i <= lookahead
    ensures forall k :: t + from <= k < t + i ==> text[k] == e.padchar
    ensures i < lookahead ==> text[t + i] != e.padchar
  {
    i := from;
    var c := text[t + i];
    while i < lookahead && c == e.padchar
      invariant from <= i <= lookahead
      invariant i < lookahead ==> c == text[t + i]
      invariant forall k :: t + from <= k < t + i ==> text[k] == e.padchar
    {
      i := i + 1;
      // the source reads one character further here even when `i` is `lookahead`, and does not use it
      if i < lookahead { c := text[t + i]; }
    }
  }

  function Word4(a: int, b: int, c: int, d: int): int {
    a * 0x40000 + b * 0x1000 + c * 0x40 + d
  }

  /** The bytes that the source shifts out of the word. */
  function Shifted(w: int, k: nat): Byte {
    match k
    case 0 => w / 0x10000 % 256
    case 1 => w / 0x100 % 256
    case _ => w % 256
  }

  lemma By256(w: int, x: int, r: int)
    requires w == x * 256 + r && 0 <= r < 256
    ensures w / 256 == x && w % 256 == r
  {
  }

  lemma By65536(w: int, x: int, r: int)
    requires w == x * 65536 + r && 0 <= r < 65536
    ensures w / 65536 == x
  {
  }

  lemma FirstOctet(a: int, b: int, c: int, d: int)
    requires 0 <= a < 64 && 0 <= b < 64 && 0 <= c < 64 && 0 <= d < 64
    ensures Shifted(Word4(a, b, c, d), 0) == a * 4 + b / 16
  {
    By65536(Word4(a, b, c, d), a * 4 + b / 16, b % 16 * 0x1000 + c * 0x40 + d);
  }

  lemma SecondOctet(a: int, b: int, c: int, d: int)
    requires 0 <= a < 64 && 0 <= b < 64 && 0 <= c < 64 && 0 <= d < 64
    ensures Shifted(Word4(a, b, c, d), 1) == b % 16 * 16 + c / 4
  {
    var x := a * 0x400 + b * 0x10 + c / 4;
    By256(Word4(a, b, c, d), x, c % 4 * 0x40 + d);
    By256(x, a * 4 + b / 16, b % 16 * 16 + c / 4);
  }

  lemma LastOctet(a: int, b: int, c: int, d: int)
    requires 0 <= a < 64 && 0 <= b < 64 && 0 <= c < 64 && 0 <= d < 64
    ensures Shifted(Word4(a, b, c, d), 2) == c % 4 * 64 + d
  {
    By256(Word4(a, b, c, d), a * 0x400 + b * 0x10 + c / 4, c % 4 * 0x40 + d);
  }

  /** Byte `b` is right for position `p`. */
  ghost predicate Fits(e: Encoding, text: seq<Byte>, p: nat, b: Byte)
    requires Valid(e)
  {
    forall k: nat {:trigger Look(k)} :: k == p && Look(k) ==> b == DecodedAt(e, text, p)
  }

  lemma DecodedIs(e: Encoding, text: seq<Byte>, g: nat, k: nat)
    requires Valid(e) && k < 3 && 4 * g < |text|
    ensures DecodedAt(e, text, 3 * g + k) == if k + 1 < Lead(e, text, 4 * g) then Octet(e, text, 4 * g, k) else 0
  {
    assert (3 * g + k) / 3 == g && (3 * g + k) % 3 == k;
  }

  ghost predicate IsOctet(e: Encoding, text: seq<Byte>, t: nat, k: nat, b: Byte)
    requires Valid(e) && t <= |text|
  {
    forall i: nat {:trigger Look(i)} :: i == k && Look(i) ==> b == Octet(e, text, t, k)
  }

  lemma OctetFits(e: Encoding, text: seq<Byte>, g: nat, k: nat, o: nat, b: Byte)
    requires Valid(e) && k < 3 && 4 * g < |text| && o == 3 * g + k
    requires if k + 1 < Lead(e, text, 4 * g) then IsOctet(e, text, 4 * g, k, b) else b == 0
    ensures Fits(e, text, o, b)
  {
    assert Look(k);
    DecodedIs(e, text, g, k);
  }

  ghost function GroupWord(e: Encoding, text: seq<Byte>, t: nat): int
    requires Valid(e) && t <= |text|
  {
    Word4(Val(e, text, t, 0), Val(e, text, t, 1), Val(e, text, t, 2), Val(e, text, t, 3))
  }

  ghost predicate IsWord(e: Encoding, text: seq<Byte>, t: nat, w: int)
    requires Valid(e) && t <= |text|
  {
    forall k: nat {:trigger Look(k)} :: k == t && Look(k) ==> w == GroupWord(e, text, t)
  }

  lemma WordIs(e: Encoding, text: seq<Byte>, t: nat, buf: seq<Byte>)
    requires Valid(e) && t <= |text| && |buf| == 4 && forall j :: 0 <= j < 4 ==> buf[j] == Val(e, text, t, j)
    ensures IsWord(e, text, t, Word4(buf[0], buf[1], buf[2], buf[3]))
  {
  }

  lemma ShiftedIs(e: Encoding, text: seq<Byte>, t: nat, k: nat)
    requires Valid(e) && t <= |text| && k < 3
    ensures Octet(e, text, t, k) == Shifted(GroupWord(e, text, t), k)
  {
    var a, b, c, d := Val(e, text, t, 0), Val(e, text, t, 1), Val(e, text, t, 2), Val(e, text, t, 3);
    match k
    case 0 => FirstOctet(a, b, c, d);
    case 1 => SecondOctet(a, b, c, d);
    case _ => LastOctet(a, b, c, d);
  }

  lemma ShiftedWord(e: Encoding, text: seq<Byte>, t: nat, k: nat, w: int)
    requires Valid(e) && t <= |text| && k < 3 && IsWord(e, text, t, w)
    ensures IsOctet(e, text, t, k, Shifted(w, k))
  {
    assert Look(t);
    ShiftedIs(e, text, t, k);
  }

  /** Stores byte `k` of a group, unless the group is too short to have it. */
  method PutByte(e: Encoding, out: array<Byte>, text: seq<Byte>, ghost g: nat, k: nat, o: nat, b: Byte, buflen: nat)
    requires Valid(e) && k < 3 && o == 3 * g + k && 4 * g < |text| && buflen == Lead(e, text, 4 * g)
    requires IsOctet(e, text, 4 * g, k, b)
    requires if buflen >= k + 2 then o < out.Length else o < out.Length ==> out[o] == 0
    modifies out
    ensures o < out.Length ==> Fits(e, text, o, out[o])
    ensures forall p :: 0 <= p < out.Length && p != o ==> out[p] == old(out[p])
  {
    if buflen >= k + 2 {
      OctetFits(e, text, g, k, o, b);
      out[o] := b;
    } else if o < out.Length {
      OctetFits(e, text, g, k, o, out[o]);
    }
  }

  method PutShifted(e: Encoding, out: array<Byte>, text: seq<Byte>, ghost g: nat, k: nat, o: nat, combined: int, buflen: nat)
    requires Valid(e) && k < 3 && o == 3 * g + k && 4 * g < |text| && buflen == Lead(e, text, 4 * g)
    requires IsWord(e, text, 4 * g, combined)
    requires if buflen >= k + 2 then o < out.Length else o < out.Length ==> out[o] == 0
    modifies out
    ensures o < out.Length ==> Fits(e, text, o, out[o])
    ensures forall p :: 0 <= p < out.Length && p != o ==> out[p] == old(out[p])
  {
    ShiftedWord(e, text, 4 * g, k, combined);
    PutByte(e, out, text, g, k, o, Shifted(combined, k), buflen);
  }

  method DecodeTriplet(e: Encoding, out: array<Byte>, o: nat, text: seq<Byte>, t: nat, ghost g: nat) returns (valid: bool)
    requires Valid(e) && t == 4 * g < |text| && o == 3 * g
    requires GroupOk(e, text, t) && Lead(e, text, t) >= 2 ==> o + Lead(e, text, t) - 1 <= out.Length
    requires forall p :: o <= p < out.Length ==> out[p] == 0
    modifies out
    ensures valid == GroupOk(e, text, t)
    ensures forall p :: 0 <= p < out.Length && !(o <= p < o + 3) ==> out[p] == old(out[p])
    ensures valid ==> forall p :: o <= p < o + 3 && p < out.Length ==> Fits(e, text, p, out[p])
  {
    var buf: seq<Byte>, buflen: nat;
    valid, buf, buflen := ReadGroup(e, text, t);
    if valid {
      var combined := Word4(buf[0], buf[1], buf[2], buf[3]);
      WordIs(e, text, t, buf);
      PutShifted(e, out, text, g, 2, o + 2, combined, buflen);
      PutShifted(e, out, text, g, 1, o + 1, combined, buflen);
      PutShifted(e, out, text, g, 0, o, combined, buflen);
    }
  }

  lemma AllFit(e: Encoding, text: seq<Byte>, s: seq<Byte>)
    requires Valid(e) && Safe(e, text) && |s| == OutSize(e, text) && forall p :: 0 <= p < |s| ==> Fits(e, text, p, s[p])
    ensures s == DecodedBytes(e, text)
  {
    forall p: nat | p < |s|
      ensures s[p] == DecodedAt(e, text, p)
    {
      assert Fits(e, text, p, s[p]) && Look(p);
    }
  }

  method Decode(e: Encoding, text: seq<Byte>) returns (r: Option<seq<Byte>>)
    requires Valid(e) && Safe(e, text)
    ensures r == Decoded(e, text)
  {
    var out := new Byte[OutSize(e, text)](_ => 0);
    var t, o := 0, 0;
    ghost var g, done: nat := 0, 0;
    while t < |text|
      invariant 0 <= g && t == 4 * g && o == 3 * g
      invariant done <= |text| && AllOk(e, text, done) && done == if t < |text| then t else |text|
      invariant forall p :: 0 <= p < o && p < out.Length ==> Fits(e, text, p, out[p])
      invariant forall p :: o <= p < out.Length ==> out[p] == 0
    {
      if Writes(e, text, g) { InBounds(e, text, g); }
      var valid := DecodeTriplet(e, out, o, text, t, g);
      if !valid { return None; }
      AllOkNext(e, text, t);
      done := End(text, t);
      t := t + 4;
      o := o + 3;
      g := g + 1;
    }
    SizeCovered(e, text);
    AllFit(e, text, out[..]);
    r := Some(out[..]);
  }

  lemma SizeCovered(e: Encoding, text: seq<Byte>)
    requires |e.decoder| == 256 && Safe(e, text)
    ensures OutSize(e, text) <= (|text| + 3) / 4 * 3
  {
  }

  // ---------------------------------------------------------------- the round trip

  lemma DecoderInverts(e: Encoding, s: nat)
    requires Valid(e) && Distinct(e.encoder) && s < 64
    ensures e.decoder[e.encoder[s]] == s
  {
    assert e.encoder[..64] == e.encoder;
    assert e.encoder[s] in e.encoder[..64];
  }

  lemma {:induction false} StopAt(e: Encoding, text: seq<Byte>, i: nat, r: nat, end: nat)
    requires |e.decoder| == 256 && i <= r <= end <= |text|
    requires forall k :: i <= k < r ==> e.decoder[text[k]] != INVALID
    requires r < end ==> e.decoder[text[r]] == INVALID
    ensures Stop(e, text, i, end) == r
  {
  }

  /** Value `v` is that of a sextet of the data. */
  ghost predicate HasSextet(data: seq<Byte>, g: nat, j: nat, v: Byte) {
    forall k: nat {:trigger Look(k)} :: k == j && Look(k) ==> v == Sextet(data, g, j)
  }

  ghost predicate IsEncoded(e: Encoding, data: seq<Byte>, text: seq<Byte>) {
    |text| == EncodedSize(|data|, Padded(e)) && forall q :: 0 <= q < |text| ==> Right(e, data, q, text[q])
  }

  /** A character that is not padding has the value of its sextet. */
  lemma CharComesBack(e: Encoding, data: seq<Byte>, text: seq<Byte>, g: nat, j: nat)
    requires Valid(e) && Distinct(e.encoder) && IsEncoded(e, data, text)
    requires j < 4 && 4 * g + j < EncodedSize(|data|, false) && 4 * g + j < |text|
    ensures e.decoder[text[4 * g + j]] < 64 && HasSextet(data, g, j, e.decoder[text[4 * g + j]])
  {
    assert Right(e, data, 4 * g + j, text[4 * g + j]) && Look(4 * g + j);
    assert (4 * g + j) / 4 == g && (4 * g + j) % 4 == j;
    DecoderInverts(e, Sextet(data, g, j));
  }

  lemma PadComesBack(e: Encoding, data: seq<Byte>, text: seq<Byte>, q: nat)
    requires Valid(e) && IsEncoded(e, data, text) && EncodedSize(|data|, false) <= q < |text|
    ensures text[q] == e.padchar && Padded(e) && e.decoder[text[q]] == INVALID
  {
    assert Right(e, data, q, text[q]) && Look(q);
    assert e.encoder[..64] == e.encoder;
  }

  /** The first `m` characters of a text are of the alphabet, and the rest is padding. */
  ghost predicate EndsIn(e: Encoding, text: seq<Byte>, m: nat)
    requires Valid(e)
  {
    forall k :: 0 <= k < |text| ==>
      if k < m then e.decoder[text[k]] != INVALID
      else text[k] == e.padchar && Padded(e) && e.decoder[text[k]] == INVALID
  }

  lemma EncodedCut(e: Encoding, data: seq<Byte>, text: seq<Byte>)
    requires Valid(e) && Distinct(e.encoder) && IsEncoded(e, data, text)
    ensures EndsIn(e, text, EncodedSize(|data|, false))
  {
    var m := EncodedSize(|data|, false);
    forall k | 0 <= k < |text|
      ensures if k < m then e.decoder[text[k]] != INVALID
              else text[k] == e.padchar && Padded(e) && e.decoder[text[k]] == INVALID
    {
      if k < m { CharComesBack(e, data, text, k / 4, k % 4); } else { PadComesBack(e, data, text, k); }
    }
  }

  lemma CutLead(e: Encoding, text: seq<Byte>, g: nat, m: nat)
    requires Valid(e) && EndsIn(e, text, m) && 4 * g < |text| && 4 * g <= m <= |text|
    ensures GroupOk(e, text, 4 * g) && Lead(e, text, 4 * g) == (if 4 * g + 4 <= m then 4 else m - 4 * g)
  {
    StopAt(e, text, 4 * g, if 4 * g + 4 <= m then 4 * g + 4 else m, End(text, 4 * g));
  }

  /** The characters of the alphabet in a group of the encoding. */
  lemma EncodedLead(e: Encoding, data: seq<Byte>, text: seq<Byte>, g: nat)
    requires Valid(e) && Distinct(e.encoder) && IsEncoded(e, data, text) && 4 * g < |text|
    ensures var m := EncodedSize(|data|, false);
      GroupOk(e, text, 4 * g) && Lead(e, text, 4 * g) == (if 4 * g + 4 <= m then 4 else m - 4 * g)
  {
    TrailingSize(|data|);
    EncodedCut(e, data, text);
    CutLead(e, text, g, EncodedSize(|data|, false));
  }

  lemma PadCount(e: Encoding, data: seq<Byte>, text: seq<Byte>, q: nat)
    requires Valid(e) && Padded(e) && IsEncoded(e, data, text) && q < |text|
    ensures IsPad(e, text[q]) == if q < EncodedSize(|data|, false) then 0 else 1
  {
    assert Right(e, data, q, text[q]) && Look(q);
  }

  /** The size of the output is the size of the data. */
  lemma EncodedBounded(e: Encoding, data: seq<Byte>, text: seq<Byte>)
    requires Valid(e) && (Padded(e) ==> data != []) && IsEncoded(e, data, text)
    ensures Safe(e, text) && OutSize(e, text) == |data|
  {
    TrailingSize(|data|);
    WholeGroupsSafe(e, text);
    var n := |text|;
    if Padded(e) {
      PadCount(e, data, text, n - 1);
      PadCount(e, data, text, n - 2);
    }
  }

  lemma JoinCuts(a: Byte, b: Byte, c: Byte)
    ensures Joined(a / 4, a % 4 * 16 + b / 16, 0) == a
    ensures Joined(a % 4 * 16 + b / 16, b % 16 * 4 + c / 64, 1) == b
    ensures Joined(b % 16 * 4 + c / 64, c % 64, 2) == c
  {
    assert (a % 4 * 16 + b / 16) / 16 == a % 4 && (a % 4 * 16 + b / 16) % 16 == b / 16;
    assert (b % 16 * 4 + c / 64) / 4 == b % 16 && (b % 16 * 4 + c / 64) % 4 == c / 64;
  }

  /** The bits of a byte are in two neighbouring sextets. */
  lemma Regroup(data: seq<Byte>, g: nat, k: nat, x: Byte, y: Byte)
    requires k < 3 && x < 64 && y < 64 && HasSextet(data, g, k, x) && HasSextet(data, g, k + 1, y)
    ensures Joined(x, y, k) == At(data, 3 * g + k)
  {
    assert Look(k) && Look(k + 1);
    JoinCuts(At(data, 3 * g), At(data, 3 * g + 1), At(data, 3 * g + 2));
  }

  lemma EnoughSextets(n: nat, g: nat, k: nat)
    requires k < 3 && 3 * g + k < n
    ensures 4 * g + k + 1 < EncodedSize(n, false) <= EncodedSize(n, true)
  {
    TrailingSize(n);
  }

  lemma OctetComesBack(e: Encoding, data: seq<Byte>, text: seq<Byte>, g: nat, k: nat)
    requires Valid(e) && Distinct(e.encoder) && IsEncoded(e, data, text) && k < 3 && 3 * g + k < |data|
    ensures 4 * g < |text| && k + 1 < Lead(e, text, 4 * g) && IsOctet(e, text, 4 * g, k, At(data, 3 * g + k))
  {
    EnoughSextets(|data|, g, k);
    EncodedLead(e, data, text, g);
    CharComesBack(e, data, text, g, k);
    CharComesBack(e, data, text, g, k + 1);
    Regroup(data, g, k, Val(e, text, 4 * g, k), Val(e, text, 4 * g, k + 1));
  }

  lemma ByteComesBack(e: Encoding, data: seq<Byte>, text: seq<Byte>, g: nat, k: nat)
    requires Valid(e) && Distinct(e.encoder) && IsEncoded(e, data, text) && k < 3 && 3 * g + k < |data|
    ensures Fits(e, text, 3 * g + k, data[3 * g + k])
  {
    OctetComesBack(e, data, text, g, k);
    OctetFits(e, text, g, k, 3 * g + k, data[3 * g + k]);
  }

  lemma EncodedIs(e: Encoding, data: seq<Byte>)
    ensures IsEncoded(e, data, Encoded(e, data))
  {
  }

  /** Decoding undoes encoding, for every byte string and every alphabet of 64 different characters; the empty
      string is excluded with padding, because `decode` looks at the last two characters of its input. */
  lemma RoundTrip(e: Encoding, data: seq<Byte>)
    requires Valid(e) && Distinct(e.encoder) && (Padded(e) ==> data != [])
    ensures Safe(e, Encoded(e, data)) && Decoded(e, Encoded(e, data)) == Some(data)
  {
    var text := Encoded(e, data);
    EncodedIs(e, data);
    EncodedBounded(e, data, text);
    forall t | 0 <= t < |text| && t % 4 == 0
      ensures GroupOk(e, text, t)
    {
      EncodedLead(e, data, text, t / 4);
    }
    forall p | 0 <= p < |data|
      ensures Fits(e, text, p, data[p])
    {
      ByteComesBack(e, data, text, p / 3, p % 3);
    }
    AllFit(e, text, data);
  }
}
