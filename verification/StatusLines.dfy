/** Which texts are status lines, and what they say. */
module StatusLines {
  import opened Text
  import opened Decimal
  import opened Streams
  import opened Http11

  /** A line in its pieces: the two numbers of the version, the status and the reason phrase. */
  ghost predicate Consists(line: string, a: string, b: string, c: string, phrase: string) {
    && line == "HTTP/" + a + "." + b + " " + c + " " + phrase
    && Free(a, {'.', ' '}) && Free(b, {' '}) && Free(c, {' '})
  }

  /** The pieces begin with these numbers. */
  ghost predicate Says(a: string, b: string, c: string, v: Version, code: nat) {
    && BeginsWith(a, v.major) && BeginsWith(b, v.minor) && BeginsWith(c, code)
    && v.major < UINT32 && v.minor < UINT32 && 0 < code < UINT32
  }

  /** The version text of a line, in its pieces. */
  lemma VersionExactly(s: string, a: string, b: string, v: Version)
    requires s == "HTTP/" + a + "." + b && Free(a, {'.'})
    ensures ParseVersion(s) == Ok(v) <==>
              BeginsWith(a, v.major) && BeginsWith(b, v.minor) && v.major < UINT32 && v.minor < UINT32
  {
    var rest := s[|NAME|..];
    assert rest == a + ("." + b);
    IndexAfter(a, "." + b, {'.'});
    assert rest[..|a|] == a && rest[|a| + 1..] == b;
    ParsesBeginning(a, UINT32, v.major);
    ParsesBeginning(b, UINT32, v.minor);
  }

  lemma VersionHasPoint(s: string)
    requires ParseVersion(s).Ok?
    ensures NAME <= s && IndexOfAny(s[|NAME|..], {'.'}) < |s| - |NAME|
  {
  }

  lemma VersionPieces(s: string) returns (a: string, b: string)
    requires ParseVersion(s).Ok?
    ensures s == "HTTP/" + a + "." + b && Free(a, {'.'})
  {
    VersionHasPoint(s);
    a, b := Around(s[|NAME|..], '.');
    assert s == NAME + (a + ['.'] + b);
  }

  lemma Around(s: string, c: char) returns (x: string, y: string)
    requires IndexOfAny(s, {c}) < |s|
    ensures x == s[..IndexOfAny(s, {c})] && y == s[IndexOfAny(s, {c}) + 1..]
    ensures s == x + [c] + y && Free(x, {c})
  {
    var i := IndexOfAny(s, {c});
    x, y := s[..i], s[i + 1..];
  }

  /** Text behind a blank does not matter. */
  lemma BeginsBefore(c: string, x: string, n: nat)
    requires Free(c, {' '}) && x != "" && x[0] == ' '
    ensures BeginsWith(c + x, n) <==> BeginsWith(c, n)
  {
    var s := c + x;
    var k := DigitCount(c);
    assert s[|c|] == ' ' && forall j :: 0 <= j < |c| ==> s[j] == c[j];
    assert DigitCount(s) == k by { SameCount(s, k); }
    assert c[..k] == s[..k];
    BeginsIn(c, n);
    BeginsIn(s, n);
  }

  lemma SameCount(s: string, k: nat)
    requires k < |s| && !IsDigit(s[k]) && forall j :: 0 <= j < k ==> IsDigit(s[j])
    ensures DigitCount(s) == k
  {
  }

  lemma BeginsIn(s: string, n: nat)
    ensures BeginsWith(s, n) <==> DigitCount(s) > 0 && Value(s[..DigitCount(s)]) == n
  {
    ParsesBeginning(s, Value(s[..DigitCount(s)]) + 1, n);
    if BeginsWith(s, n) { ParsesBeginning(s, n + 1, n); }
  }

  /** What is parsed of a status reaches past the blank behind it. */
  lemma StatusPiece(c: string, phrase: string, m: nat) returns (x: string)
    requires |c| < m <= |c| + 1 + |phrase|
    ensures (c + (" " + phrase))[..m] == c + x && x != "" && x[0] == ' '
  {
    PrefixConcat(c, " " + phrase, m);
    x := (" " + phrase)[..m - |c|];
  }

  lemma StatusBy(rest: string, start: nat, j: nat, status: Number)
    requires j == IndexOfAny(rest, {' '}) < |rest| && status == ParseUint(rest[..Min(start + j, |rest|)])
    ensures ParseStatus(rest, start) == if !status.Num? || status.value == 0 then Err(IllegalBytes) else Ok(status.value)
  {
  }

  /** The status text behind the version. */
  lemma StatusExactly(c: string, phrase: string, start: nat, code: nat)
    requires Free(c, {' '}) && start > 0
    ensures ParseStatus(c + (" " + phrase), start) == Ok(code) <==> BeginsWith(c, code) && 0 < code < UINT32
  {
    var rest := c + (" " + phrase);
    IndexAfter(c, " " + phrase, {' '});
    var x := StatusPiece(c, phrase, Min(start + |c|, |rest|));
    StatusBy(rest, start, |c|, ParseUint(c + x));
    BeginsBefore(c, x, code);
    ParsesBeginning(c + x, UINT32, code);
  }

  lemma LineInTwo(line: string, a: string, b: string, c: string, phrase: string)
    requires Consists(line, a, b, c, phrase)
    ensures var version, rest := "HTTP/" + a + "." + b, c + (" " + phrase);
      line == version + (" " + rest) && Free(version, {' '})
  {
    var version := "HTTP/" + a + "." + b;
    assert version == "HTTP/" + (a + ("." + b));
    FreeConcat("." , b, {' '});
    FreeConcat(a, "." + b, {' '});
    FreeConcat("HTTP/", a + ("." + b), {' '});
    assert line == version + " " + c + " " + phrase;
  }

  lemma ConsistsSays(line: string, a: string, b: string, c: string, phrase: string, v: Version, code: nat)
    requires Consists(line, a, b, c, phrase)
    ensures ParseStatusLine(line) == Ok((v, code)) <==> Says(a, b, c, v, code)
  {
    var version, rest := "HTTP/" + a + "." + b, c + (" " + phrase);
    LineInTwo(line, a, b, c, phrase);
    IndexAfter(version, " " + rest, {' '});
    CutConcat(version, " " + rest);
    CutConcat(" ", rest);
    VersionExactly(version, a, b, v);
    StatusExactly(c, phrase, |version| + 1, code);
  }

  lemma Pieces(line: string) returns (a: string, b: string, c: string, phrase: string)
    requires ParseStatusLine(line).Ok?
    ensures Consists(line, a, b, c, phrase)
  {
    HasTwoBlanks(line);
    var version, rest := Around(line, ' ');
    a, b := VersionPieces(version);
    c, phrase := Around(rest, ' ');
    Assembled(line, version, rest, a, b, c, phrase);
  }

  lemma HasTwoBlanks(line: string)
    requires ParseStatusLine(line).Ok?
    ensures var i := IndexOfAny(line, {' '});
      i < |line| && ParseVersion(line[..i]).Ok? && IndexOfAny(line[i + 1..], {' '}) < |line| - i - 1
  {
    var i := IndexOfAny(line, {' '});
    HasOneBlank(line);
    StatusHasBlank(line[i + 1..], i + 1);
  }

  lemma HasOneBlank(line: string)
    requires ParseStatusLine(line).Ok?
    ensures var i := IndexOfAny(line, {' '});
      i < |line| && ParseVersion(line[..i]).Ok? && ParseStatus(line[i + 1..], i + 1).Ok?
  {
  }

  lemma StatusHasBlank(rest: string, start: nat)
    requires ParseStatus(rest, start).Ok?
    ensures IndexOfAny(rest, {' '}) < |rest|
  {
  }

  lemma Assembled(line: string, version: string, rest: string, a: string, b: string, c: string, phrase: string)
    requires line == version + [' '] + rest && rest == c + [' '] + phrase && version == "HTTP/" + a + "." + b
    requires Free(version, {' '}) && Free(c, {' '}) && Free(a, {'.'})
    ensures Consists(line, a, b, c, phrase)
  {
    FreeConcat("HTTP/" + a + ".", b, {' '});
    FreeConcat("HTTP/" + a, ".", {' '});
    FreeConcat("HTTP/", a, {' '});
    Associate(version + " ", c, " " + phrase);
    assert c + [' '] + phrase == c + (" " + phrase);
  }

  /** A line gives a version and a status exactly when it consists of "HTTP/", two texts that begin with the numbers of
      the version around the first point, and, behind the first blank and before a second one, a text that begins with
      the status, which is not zero. Whatever follows a number up to the next delimiter is ignored. */
  lemma StatusLineParses(line: string, v: Version, code: nat)
    ensures ParseStatusLine(line) == Ok((v, code)) <==>
              exists a, b, c, phrase :: Consists(line, a, b, c, phrase) && Says(a, b, c, v, code)
  {
    if ParseStatusLine(line) == Ok((v, code)) {
      var a, b, c, phrase := Pieces(line);
      ConsistsSays(line, a, b, c, phrase, v, code);
    }
    if a, b, c, phrase :| Consists(line, a, b, c, phrase) && Says(a, b, c, v, code) {
      ConsistsSays(line, a, b, c, phrase, v, code);
    }
  }
}
