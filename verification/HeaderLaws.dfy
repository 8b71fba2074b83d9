/** Which headers come back from the line that `write_headers` prints for them: `src/http/http11.cpp`. */
module HeaderLaws {
  import opened Text
  import opened StringUtil
  import opened Http11

  predicate NameOk(name: string) {
    Free(name, {':'}) && Trim(name) == name
  }

  /** One value with no comma and no blanks around it, or an empty value behind one that has no comma
      and does not begin with a blank. */
  predicate ValuesOk(values: seq<string>) {
    || (|values| == 1 && Trimmed(values[0]) && Free(values[0], {','}))
    || (|values| == 2 && values[1] == "" && Free(values[0], {','}) && Leading(values[0]) == 0)
  }

  // ---------------------------------------------------------------- the name

  /** What is parsed behind a good name. */
  lemma ParseBehind(name: string, text: string)
    requires NameOk(name)
    ensures ParseLine(name + (": " + text)) == Some((name, Split(Trim(" " + text), ',')))
  {
    HeaderLineIs(name, text);
    ColonAt(name, " " + text);
    LineCut(name, " " + text);
  }

  lemma BadName(name: string, text: string)
    requires !NameOk(name)
    ensures ParseLine(name + (": " + text)).Some? && ParseLine(name + (": " + text)).value.0 != name
  {
    var rest := " " + text;
    var line := name + (":" + rest);
    HeaderLineIs(name, text);
    ColonAt(name, rest);
    LineCut(name, rest);
  }

  // ---------------------------------------------------------------- the values

  /** The printed text of two values or more. */
  lemma TextOf(values: seq<string>)
    requires |values| >= 2
    ensures ValuesText(values) == values[0] + (", " + (values[1] + LaterText(values, 2)))
  {
    ValuesFromLater(values, 1);
    assert values[..1] == [values[0]];
    Associate(", ", values[1], LaterText(values, 2));
  }

  lemma JoinOf(values: seq<string>)
    requires |values| >= 2
    ensures Join(values, ',') == values[0] + ("," + Join(values[1..], ','))
  {
    Associate(values[0], ",", Join(values[1..], ','));
  }

  /** The values, each but the first with a blank in front. */
  function Spaced(values: seq<string>): (r: seq<string>)
    ensures |r| == |values|
  {
    seq(|values|, i requires 0 <= i < |values| => if i == 0 then values[0] else " " + values[i])
  }

  lemma {:induction false} JoinSnoc(parts: seq<string>, s: string)
    requires parts != []
    ensures Join(parts + [s], ',') == Join(parts, ',') + ("," + s)
  {
    if |parts| > 1 {
      assert (parts + [s])[1..] == parts[1..] + [s];
      JoinSnoc(parts[1..], s);
    } else {
      assert (parts + [s])[1..] == [s];
    }
  }

  lemma {:induction false} TextJoins(values: seq<string>)
    requires values != []
    ensures ValuesText(values) == Join(Spaced(values), ',')
    decreases |values|
  {
    if |values| > 1 {
      var front, last := values[..|values| - 1], values[|values| - 1];
      TextJoins(front);
      assert Spaced(values) == Spaced(front) + [" " + last];
      JoinSnoc(Spaced(front), " " + last);
      Associate(Join(Spaced(front), ','), ",", " " + last);
    }
  }

  /** However many values without commas are printed, between commas stand exactly these values, each but the first with
      a blank in front. */
  lemma ValuesSplit(values: seq<string>)
    requires values != [] && forall k :: 0 <= k < |values| ==> Free(values[k], {','})
    ensures Split(ValuesText(values), ',') == Spaced(values)
  {
    TextJoins(values);
    SpacedFree(values);
    SplitExactly(ValuesText(values), ',', Spaced(values));
  }

  lemma SpacedFree(values: seq<string>)
    requires forall k :: 0 <= k < |values| ==> Free(values[k], {','})
    ensures forall k :: 0 <= k < |values| ==> Free(Spaced(values)[k], {','})
  {
    forall k | 0 <= k < |values|
      ensures Free(Spaced(values)[k], {','})
    {
      FreeConcat(" ", values[k], {','});
    }
  }

  /** Blanks in front of the first value are cut off. */
  lemma {:induction false} LeadingComma(v: string, rest: string)
    ensures Leading(v + (", " + rest)) == Leading(v)
    decreases |v|
  {
    var t := v + (", " + rest);
    if v == "" {
      assert t[0] == ',';
    } else {
      assert t[0] == v[0] && t[1..] == v[1..] + (", " + rest);
      LeadingComma(v[1..], rest);
    }
  }

  lemma {:induction false} LeadingSnoc(w: string, m: nat)
    requires |w| == m + 1
    ensures if IsSpace(w[m]) then (Leading(w) == |w| <==> Leading(w[..m]) == m) else Leading(w) < |w|
    decreases |w|
  {
    if m == 0 {
    } else {
      assert w[1..][..m - 1] == w[..m][1..];
      LeadingSnoc(w[1..], m - 1);
    }
  }

  lemma {:induction false} TrailingBlank(v: string, w: string)
    ensures Trailing(v + (", " + w)) == if Leading(w) == |w| then |w| + 1 else Trailing(w)
    decreases |w|
  {
    var t, n := v + (", " + w), |v| + 2 + |w| - 1;
    if w == "" {
      assert t[n] == ' ' && t[..n] == v + "," && (v + ",")[|v|] == ',';
    } else {
      var m := |w| - 1;
      assert t[n] == w[m] && t[..n] == v + (", " + w[..m]);
      TrailingBlank(v, w[..m]);
      LeadingSnoc(w, m);
    }
  }

  /** What is left of the second of two values. */
  function Second(w: string): string {
    if Leading(w) == |w| then "" else " " + w[..|w| - Trailing(w)]
  }

  lemma PairCut(v: string, w: string, lead: nat, end: nat)
    requires lead <= |v| && end <= |w|
    ensures (v + (", " + w))[lead..|v| + 1] == v[lead..] + ("," + "")
    ensures (v + (", " + w))[lead..|v| + 2 + end] == v[lead..] + ("," + (" " + w[..end]))
  {
  }

  lemma PairTrimmed(v: string, rest: string, t: string, lead: nat, end: nat)
    requires t == v + (", " + rest) && lead == Leading(v) && end == |t| - Trailing(t)
    ensures lead <= |v| < end && Trim(" " + t) == t[lead..end]
  {
    assert t[|v|] == ',';
    LeadingComma(v, rest);
    TrimBehind(t, |v|, lead, end);
  }

  lemma {:induction false} PairRest(v: string, w: string, t: string, lead: nat, end: nat)
    requires t == v + (", " + w) && lead <= |v| < end == |t| - Trailing(t)
    ensures t[lead..end] == v[lead..] + ("," + Second(w))
  {
    TrailingBlank(v, w);
    PairCut(v, w, lead, |w| - Trailing(w));
  }

  lemma TrimPair(v: string, w: string, t: string, r: string)
    requires t == v + (", " + w) && r == v[Leading(v)..] + ("," + Second(w))
    ensures Trim(" " + t) == r
  {
    PairTrimmed(v, w, t, Leading(v), |t| - Trailing(t));
    PairRest(v, w, t, Leading(v), |t| - Trailing(t));
  }

  lemma SplitPair(a: string, b: string)
    requires Free(a, {','}) && Free(b, {','})
    ensures Split(a + ("," + b), ',') == [a, b]
  {
    var parts := [a, b];
    assert parts[1..] == [b];
    JoinOf(parts);
    SplitExactly(a + ("," + b), ',', parts);
  }

  lemma PairText(v: string, w: string)
    ensures ValuesText([v, w]) == v + (", " + w)
  {
    assert [v, w][..1] == [v];
  }

  lemma {:induction false} PairValues(v: string, w: string)
    requires Free(v, {','}) && Free(w, {','})
    ensures Split(Trim(" " + ValuesText([v, w])), ',') == [v[Leading(v)..], Second(w)]
  {
    var r := v[Leading(v)..] + ("," + Second(w));
    PairText(v, w);
    TrimPair(v, w, ValuesText([v, w]), r);
    SplitPair(v[Leading(v)..], Second(w));
  }

  /** Two values without commas: the first loses the blanks in front of it. The blank behind the comma stays with
      the second, unless this is empty or blank, and the second loses the blanks behind it. */
  lemma TwoValues(name: string, v: string, w: string)
    requires NameOk(name) && Free(v, {','}) && Free(w, {','})
    ensures ParseLine(HeaderLine(Header(name, [v, w]))) == Some((name, [v[Leading(v)..], Second(w)]))
  {
    ParseBehind(name, ValuesText([v, w]));
    PairValues(v, w);
  }

  lemma SecondExactly(w: string)
    ensures Second(w) == w <==> w == ""
  {
    var i := Leading(w);
    if i < |w| && |Second(w)| == |w| {
      LeadingStops(w, i);
      if i > 0 { LeadingStops(w, i - 1); }
      assert Second(w)[i] == if i == 0 then ' ' else w[i - 1];
    }
  }

  lemma JoinThree(values: seq<string>)
    requires |values| >= 3
    ensures Join(values, ',') == values[0] + ("," + (values[1] + ("," + Join(values[2..], ','))))
  {
    JoinOf(values);
    JoinOf(values[1..]);
    assert values[1..][1..] == values[2..];
  }

  /** Three values or more never come back: the second comma is printed one place too late. */
  lemma {:induction false} TooMany(values: seq<string>)
    requires |values| >= 3 && forall k :: 0 <= k < |values| ==> Free(values[k], {','})
    ensures Trim(" " + ValuesText(values)) != Join(values, ',')
  {
    var t := ValuesText(values);
    TextOf(values);
    PairTrimmed(values[0], values[1] + LaterText(values, 2), t, Leading(values[0]), |t| - Trailing(t));
    JoinThree(values);
    CommaLate(values[0], values[1], LaterText(values, 2), Join(values[2..], ','), |t| - Trailing(t));
  }

  lemma CommaLate(v: string, w: string, later: string, rest: string, end: nat)
    requires Free(v, {','}) && Free(w, {','}) && |v| < end <= |v| + 2 + |w + later|
    ensures (v + (", " + (w + later)))[Leading(v)..end] != v + ("," + (w + ("," + rest)))
  {
    var t, joined := v + (", " + (w + later)), v + ("," + (w + ("," + rest)));
    SecondComma(v, w, later, t[..end], rest);
    if t[Leading(v)..end] == joined {
      FirstComma(v, w + later, joined, end);
    }
  }

  /** The first comma shows that nothing was cut off in front. */
  lemma FirstComma(v: string, rest: string, joined: string, end: nat)
    requires Free(v, {','}) && |v| < end <= |v| + 2 + |rest|
    requires v + "," <= joined == (v + (", " + rest))[Leading(v)..end]
    ensures Leading(v) == 0
  {
    var t := v + (", " + rest);
    assert t[|v|] == ',';
    assert joined[|v| - Leading(v)] == ',';
    assert forall j :: 0 <= j < |v| ==> joined[j] == (v + ",")[j] == v[j];
  }

  lemma SecondComma(v: string, w: string, later: string, u: string, rest: string)
    requires Free(w, {','})
    ensures u <= v + (", " + (w + later)) ==> u != v + ("," + (w + ("," + rest)))
  {
    var t, j, n := v + (", " + (w + later)), v + ("," + (w + ("," + rest))), |v| + 1 + |w|;
    assert j[n] == ',';
    assert t[n] == if w == "" then ' ' else w[|w| - 1];
  }

  lemma PairExactly(v: string, w: string)
    requires Free(v, {','}) && Free(w, {','})
    ensures Split(Trim(" " + ValuesText([v, w])), ',') == [v, w] <==> w == "" && Leading(v) == 0
  {
    PairValues(v, w);
    SecondExactly(w);
    assert v[Leading(v)..] == v <==> Leading(v) == 0;
  }

  lemma {:induction false} ValuesExactly(values: seq<string>)
    ensures Split(Trim(" " + ValuesText(values)), ',') == values <==> ValuesOk(values)
  {
    if |values| == 1 {
      OneValue(values[0]);
      assert values == [values[0]];
    } else if |values| >= 2 {
      SplitExactly(Trim(" " + ValuesText(values)), ',', values);
      if forall k :: 0 <= k < |values| ==> Free(values[k], {','}) {
        if |values| == 2 {
          assert values == [values[0], values[1]];
          PairExactly(values[0], values[1]);
        } else {
          TooMany(values);
        }
      }
    }
  }

  lemma OneValue(v: string)
    ensures Split(Trim(" " + ValuesText([v])), ',') == [v] <==> Trimmed(v) && Free(v, {','})
  {
    TrimBlank(v);
    SplitWhole(Trim(" " + v), v);
  }

  /** A header comes back from its line exactly when its name has no colon and no blanks around it,
      and its values are as `ValuesOk` says. */
  lemma HeaderExactly(h: Header)
    ensures ParseLine(HeaderLine(h)) == Some((h.name, h.values)) <==> NameOk(h.name) && ValuesOk(h.values)
  {
    if NameOk(h.name) {
      ParseBehind(h.name, ValuesText(h.values));
      ValuesExactly(h.values);
    } else {
      BadName(h.name, ValuesText(h.values));
    }
  }
}
