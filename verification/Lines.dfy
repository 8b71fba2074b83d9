/** `io::readline` of `src/io/util.cpp` and `io::limit_reader` of `src/io/limit_reader.cpp`. */
module Lines {
  import opened Text
  import opened Streams
  import opened BufferedReading

  predicate Occurs(s: string, e: string, i: nat) {
    i + |e| <= |s| && s[i..i + |e|] == e
  }

  lemma OccursLater(s: string, e: string)
    requires s != ""
    ensures forall j: nat :: Occurs(s[1..], e, j) <==> Occurs(s, e, j + 1)
    ensures forall j: nat :: 0 < j && Occurs(s, e, j) ==> Occurs(s[1..], e, j - 1)
  {
    forall j: nat ensures Occurs(s[1..], e, j) <==> Occurs(s, e, j + 1) {
      if j + 1 + |e| <= |s| { assert s[1..][j..j + |e|] == s[j + 1..j + 1 + |e|]; }
    }
    forall j: nat | 0 < j && Occurs(s, e, j) ensures Occurs(s[1..], e, j - 1) {
      assert s[1..][j - 1..j - 1 + |e|] == s[j..j + |e|];
    }
  }

  /** Where `e` first occurs in `s`. */
  function FirstAt(s: string, e: string): (r: Option<nat>)
    ensures r.Some? ==> Occurs(s, e, r.value) && forall j :: 0 <= j < r.value ==> !Occurs(s, e, j)
    ensures r == None ==> forall j: nat :: !Occurs(s, e, j)
  {
    if Occurs(s, e, 0) then Some(0)
    else if s == "" then None
    else
      OccursLater(s, e);
      match FirstAt(s[1..], e)
      case None => None
      case Some(i) => Some(i + 1)
  }

  predicate EndsWith(s: string, e: string) {
    |e| <= |s| && s[|s| - |e|..] == e
  }

  /** The line that ends at the first `eol`, without it, and the text behind it; without `eol`, the whole text. */
  function SplitLine(s: string, eol: string): (string, string) {
    match FirstAt(s, eol)
    case Some(i) => (s[..i], s[i + |eol|..])
    case None => (s, "")
  }

  lemma FirstAtIs(s: string, e: string, i: nat)
    requires Occurs(s, e, i) && forall j :: 0 <= j < i ==> !Occurs(s, e, j)
    ensures FirstAt(s, e) == Some(i)
  {
  }

  /** The source was asked: it used one of its `before` replies, or none is left. */
  ghost predicate Asked(capacity: nat, before: nat, after: nat) {
    capacity > 0 ==> after == 0 || after < before
  }

  /** Peeks and, if there is a byte, reads it: the error returns behind a successful peek are unreachable. */
  method NextChar(reader: BufferedReader, ghost lone: set<nat>) returns (c: char, have: bool)
    requires reader.Valid()
    modifies reader, reader.impl
    ensures reader.Valid() && |reader.impl.plan| <= |old(reader.impl.plan)|
    ensures have ==> [c] + reader.Remaining() == old(reader.Remaining())
    ensures !have ==> reader.buf == "" && reader.Remaining() == old(reader.Remaining())
    ensures !have ==> Asked(reader.capacity, |old(reader.impl.plan)|, |reader.impl.plan|)
    ensures old(reader.Steady()) ==> reader.Steady() && (have <==> old(reader.Remaining()) != "")
    ensures old(reader.Steady()) && Kept(lone, old(reader.Lone()), |old(reader.Remaining())|) ==>
      Kept(lone, reader.Lone(), |reader.Remaining()|)
  {
    ghost var before, left := reader.Lone(), |reader.Remaining()|;
    ghost var tracked := reader.Steady() && Kept(lone, before, left);
    c, have := reader.Peek();
    ghost var peeked := reader.Lone();
    if tracked { KeptTwice(lone, before, peeked, left, left - 1); }
    if !have { return; }
    var cell := new char[1];
    var count, err, got := reader.Read(cell, 0, 1);
    assert count == 1 && err == NoError;
    assert got == cell[..][0..1] == [cell[0]];
    if tracked { KeptTwice(lone, peeked, reader.Lone(), left - 1, |reader.Remaining()|); }
    c := cell[0];
  }

  /** Reads one byte at a time until `eol` has been seen or nothing more can be had. A successful `Peek` leaves
      the byte in the buffer, so the read behind it cannot fail: the two error returns of `readline` are dead. */
  method ReadLine(reader: BufferedReader, eol: string) returns (line: string, ghost ended: bool)
    requires reader.Valid()
    modifies reader, reader.impl
    ensures reader.Valid()
    ensures ended ==> FirstAt(old(reader.Remaining()), eol) == Some(|line|)
    ensures ended ==> old(reader.Remaining()) == line + eol + reader.Remaining()
    ensures !ended ==> FirstAt(line, eol) == None && old(reader.Remaining()) == line + reader.Remaining()
    // without its end a line is returned only when the source was asked and gave nothing
    ensures !ended ==> reader.buf == "" && Asked(reader.capacity, |old(reader.impl.plan)|, |reader.impl.plan|)
    ensures |reader.impl.plan| <= |old(reader.impl.plan)|
    ensures old(reader.Steady()) ==>
      reader.Steady() && (line, reader.Remaining()) == SplitLine(old(reader.Remaining()), eol)
    ensures old(reader.Steady()) ==> Kept(old(reader.Lone()), reader.Lone(), |reader.Remaining()|)
  {
    ghost var all, lone := reader.Remaining(), reader.Lone();
    line := "";
    assert "" + all == all;
    while !EndsWith(line, eol)
      invariant reader.Valid() && line + reader.Remaining() == all
      invariant forall i: nat :: Occurs(line, eol, i) ==> i + |eol| == |line|
      invariant |reader.impl.plan| <= |old(reader.impl.plan)|
      invariant old(reader.Steady()) ==> reader.Steady() && Kept(lone, reader.Lone(), |reader.Remaining()|)
      decreases |reader.Remaining()|
    {
      NoneInside(line, eol);
      ghost var r := reader.Remaining();
      var c, have := NextChar(reader, lone);
      if !have {
        ended := false;
        assert old(reader.Steady()) ==> line == all;
        return;
      }
      TakeTwice(line, [c], all, r, reader.Remaining());
      OnlyAtEnd(line, c, eol);
      line := line + [c];
    }
    ended := true;
    ghost var whole := line;
    line := line[..|line| - |eol|];
    assert whole == line + eol;
    FirstHere(line, eol, reader.Remaining());
  }

  lemma NoneInside(line: string, eol: string)
    requires forall i: nat :: Occurs(line, eol, i) ==> i + |eol| == |line|
    requires !EndsWith(line, eol)
    ensures forall i: nat :: !Occurs(line, eol, i)
  {
    if |eol| <= |line| {
      assert line[|line| - |eol|..] == line[|line| - |eol|..|line|];
    }
  }

  lemma OnlyAtEnd(line: string, c: char, eol: string)
    requires forall i: nat :: !Occurs(line, eol, i)
    ensures forall i: nat :: Occurs(line + [c], eol, i) ==> i + |eol| == |line| + 1
  {
    forall i: nat | i + |eol| <= |line| ensures !Occurs(line + [c], eol, i) {
      assert (line + [c])[i..i + |eol|] == line[i..i + |eol|];
      assert !Occurs(line, eol, i);
    }
  }

  lemma FirstHere(line: string, eol: string, rest: string)
    requires forall i: nat :: Occurs(line + eol, eol, i) ==> i == |line|
    ensures FirstAt(line + eol + rest, eol) == Some(|line|)
    ensures SplitLine(line + eol + rest, eol) == (line, rest)
  {
    var s := line + eol + rest;
    assert s[|line|..|line| + |eol|] == eol && s[..|line|] == line && s[|line| + |eol|..] == rest;
    forall j: nat | j < |line| ensures !Occurs(s, eol, j) {
      assert s[j..j + |eol|] == (line + eol)[j..j + |eol|];
      assert !Occurs(line + eol, eol, j);
    }
    FirstAtIs(s, eol, |line|);
  }

  /** `line` does not contain `eol`. */
  ghost predicate Plain(line: string, eol: string) {
    forall j: nat :: Occurs(line, eol, j) ==> eol == ""
  }

  /** A line and the end taken off it, which is missing where the stream ended or stalled. */
  ghost predicate IsPart(part: (string, string), line: string, eol: string) {
    part.0 == line && (part.1 == eol || part.1 == "") && Plain(line, eol)
  }

  /** Text put together again from lines, each with the end that was taken off. */
  function Rejoin(lines: seq<(string, string)>): string {
    if lines == [] then "" else lines[0].0 + lines[0].1 + Rejoin(lines[1..])
  }

  lemma {:induction false} RejoinSnoc(lines: seq<(string, string)>, l: (string, string))
    ensures Rejoin(lines + [l]) == Rejoin(lines) + (l.0 + l.1)
  {
    if lines == [] {
      assert lines + [l] == [l] && Rejoin([l][1..]) == "";
    } else {
      assert (lines + [l])[1..] == lines[1..] + [l];
      RejoinSnoc(lines[1..], l);
    }
  }

  /** The first `n` lines of a text, and what they leave. */
  function SplitLines(s: string, eol: string, n: nat): (seq<string>, string) {
    if n == 0 then ([], s)
    else
      var (lines, rest) := SplitLines(s, eol, n - 1);
      var (line, rest') := SplitLine(rest, eol);
      (lines + [line], rest')
  }

  /** Repeated calls cut the stream into consecutive lines: nothing is lost, repeated or reordered. Over a steady source
      they are the first lines of the stream, and a line without its end is followed by nothing. */
  method ReadLines(reader: BufferedReader, eol: string, n: nat) returns (lines: seq<string>, ghost parts: seq<(string, string)>)
    requires reader.Valid()
    modifies reader, reader.impl
    ensures reader.Valid() && |lines| == n && AreParts(parts, lines, eol)
    ensures old(reader.Remaining()) == Rejoin(parts) + reader.Remaining()
    ensures old(reader.Steady()) ==> (lines, reader.Remaining()) == SplitLines(old(reader.Remaining()), eol, n)
    ensures old(reader.Steady()) ==> Unended(old(reader.Remaining()), parts, eol)
  {
    lines, parts := [], [];
    ghost var all := reader.Remaining();
    NoLines(all, eol);
    for k := 0 to n
      invariant reader.Valid() && |lines| == k && Taken(all, parts, lines, reader.Remaining(), eol)
      invariant old(reader.Steady()) ==> reader.Steady() && Foremost(all, parts, lines, reader.Remaining(), eol)
    {
      var line;
      ghost var end, rest := "", reader.Remaining();
      line, end := NextPart(reader, eol);
      TakenMore(all, parts, lines, rest, eol, line, end, reader.Remaining());
      if old(reader.Steady()) { ForemostMore(all, parts, lines, rest, eol, line, end, reader.Remaining()); }
      lines, parts := lines + [line], parts + [(line, end)];
    }
    LinesTaken(all, parts, lines, reader.Remaining(), eol);
    if old(reader.Steady()) { LinesLead(all, parts, lines, reader.Remaining(), eol); }
  }

  /** The lines taken off `all` so far, and the rest; folded. */
  ghost predicate Taken(all: string, parts: seq<(string, string)>, lines: seq<string>, rest: string, eol: string) {
    forall k: nat {:trigger Look(k)} :: k == 10 && Look(k) ==> AreParts(parts, lines, eol) && all == Rejoin(parts) + rest
  }

  /** They are the first lines of `all`; folded. */
  ghost predicate Foremost(all: string, parts: seq<(string, string)>, lines: seq<string>, rest: string, eol: string) {
    forall k: nat {:trigger Look(k)} :: k == 11 && Look(k) ==>
      (lines, rest) == SplitLines(all, eol, |lines|) && Unended(all, parts, eol)
  }

  lemma NoLines(all: string, eol: string)
    ensures Taken(all, [], [], all, eol) && Foremost(all, [], [], all, eol)
  {
    assert "" + all == all;
  }

  lemma TakenMore(all: string, parts: seq<(string, string)>, lines: seq<string>, rest: string, eol: string,
                  line: string, end: string, rest': string)
    requires Taken(all, parts, lines, rest, eol) && rest == line + end + rest' && IsPart((line, end), line, eol)
    ensures Taken(all, parts + [(line, end)], lines + [line], rest', eol)
  {
    assert Look(10);
    RejoinMore(all, parts, line, end, rest');
    PartsSnoc(parts, lines, (line, end), line, eol);
  }

  lemma ForemostMore(all: string, parts: seq<(string, string)>, lines: seq<string>, rest: string, eol: string,
                    line: string, end: string, rest': string)
    requires Foremost(all, parts, lines, rest, eol) && Taken(all, parts + [(line, end)], lines + [line], rest', eol)
    requires (line, rest') == SplitLine(rest, eol) && (end != eol ==> rest' == "")
    ensures Foremost(all, parts + [(line, end)], lines + [line], rest', eol)
  {
    assert Look(10) && Look(11);
    UnendedSnoc(all, parts, (line, end), rest', eol);
  }

  lemma LinesTaken(all: string, parts: seq<(string, string)>, lines: seq<string>, rest: string, eol: string)
    requires Taken(all, parts, lines, rest, eol)
    ensures AreParts(parts, lines, eol) && all == Rejoin(parts) + rest
  {
    assert Look(10);
  }

  lemma LinesLead(all: string, parts: seq<(string, string)>, lines: seq<string>, rest: string, eol: string)
    requires Foremost(all, parts, lines, rest, eol)
    ensures (lines, rest) == SplitLines(all, eol, |lines|) && Unended(all, parts, eol)
  {
    assert Look(11);
  }

  ghost predicate AreParts(parts: seq<(string, string)>, lines: seq<string>, eol: string) {
    |parts| == |lines| && forall i :: 0 <= i < |lines| ==> IsPart(parts[i], lines[i], eol)
  }

  lemma PartsSnoc(parts: seq<(string, string)>, lines: seq<string>, part: (string, string), line: string, eol: string)
    requires AreParts(parts, lines, eol) && IsPart(part, line, eol)
    ensures AreParts(parts + [part], lines + [line], eol)
  {
  }

  /** One call, with what it took off the line. */
  method NextPart(reader: BufferedReader, eol: string) returns (line: string, ghost end: string)
    requires reader.Valid()
    modifies reader, reader.impl
    ensures reader.Valid() && old(reader.Remaining()) == line + end + reader.Remaining()
    ensures IsPart((line, end), line, eol)
    ensures old(reader.Steady()) ==> reader.Steady() && (line, reader.Remaining()) == SplitLine(old(reader.Remaining()), eol)
    ensures old(reader.Steady()) && end != eol ==> reader.Remaining() == ""
    ensures |reader.impl.plan| <= |old(reader.impl.plan)|
    ensures end != eol ==> reader.buf == "" && Asked(reader.capacity, |old(reader.impl.plan)|, |reader.impl.plan|)
    ensures old(reader.Steady()) ==> Kept(old(reader.Lone()), reader.Lone(), |reader.Remaining()|)
  {
    ghost var r := reader.Remaining();
    ghost var ended;
    line, ended := ReadLine(reader, eol);
    end := if ended then eol else "";
    if ended {
      Begins(line, eol, reader.Remaining());
      LineHasNone(r, line, eol);
    } else {
      NoEnd(line, reader.Remaining());
      if old(reader.Steady()) { NothingBehind(r, line, eol, reader.Remaining()); }
    }
  }

  lemma RejoinMore(all: string, parts: seq<(string, string)>, line: string, end: string, rest: string)
    requires all == Rejoin(parts) + (line + end + rest)
    ensures all == Rejoin(parts + [(line, end)]) + rest
  {
    RejoinSnoc(parts, (line, end));
    Associate(Rejoin(parts), line + end, rest);
  }

  /** A part without the line end is the last one with anything in it. */
  ghost predicate Unended(all: string, parts: seq<(string, string)>, eol: string) {
    forall i :: 0 <= i < |parts| && parts[i].1 != eol ==> Rejoin(parts[..i + 1]) == all
  }

  lemma UnendedSnoc(all: string, parts: seq<(string, string)>, l: (string, string), rest: string, eol: string)
    requires Unended(all, parts, eol) && all == Rejoin(parts + [l]) + rest && (l.1 != eol ==> rest == "")
    ensures Unended(all, parts + [l], eol)
  {
    var more := parts + [l];
    assert more[..|more|] == more && Rejoin(more) + "" == Rejoin(more);
    assert forall i :: 0 <= i < |parts| ==> more[..i + 1] == parts[..i + 1] && more[i] == parts[i];
  }

  /** A line that was not ended leaves nothing. */
  lemma NothingBehind(r: string, line: string, eol: string, rest: string)
    requires (line, rest) == SplitLine(r, eol) && FirstAt(line, eol) == None && r == line + rest
    ensures rest == ""
  {
    assert Occurs(line, "", 0);
  }

  lemma NoEnd(line: string, rest: string)
    ensures line + "" + rest == line + rest
  {
  }

  lemma Begins(line: string, eol: string, rest: string)
    ensures line <= line + eol + rest
  {
  }

  lemma LineHasNone(r: string, line: string, eol: string)
    requires FirstAt(r, eol) == Some(|line|) && line <= r
    ensures Plain(line, eol)
  {
    forall j: nat | Occurs(line, eol, j) ensures eol == "" {
      assert r[j..j + |eol|] == line[j..j + |eol|];
      assert Occurs(r, eol, j);
    }
  }

  // ---------------------------------------------------------------- limit_reader

  /** Delivers the first `limit` bytes of its parent and then reports the end. */
  class LimitReader {
    const parent: BufferedReader
    const limit: nat
    var progress: nat

    constructor (parent: BufferedReader, limit: nat)
      requires parent.Valid()
      ensures Valid() && this.parent == parent && this.limit == limit && progress == 0
    {
      this.parent, this.limit, progress := parent, limit, 0;
    }

    ghost predicate Valid()
      reads this, parent
    {
      parent.Valid() && progress <= limit
    }

    /** What this reader has yet to deliver. */
    ghost function Body(): string
      requires Valid()
      reads this, parent, parent.impl
    {
      parent.Remaining()[..Min(limit - progress, |parent.Remaining()|)]
    }

    /** What stays in the parent behind the body. */
    ghost function Beyond(): string
      requires Valid()
      reads this, parent, parent.impl
    {
      parent.Remaining()[|Body()|..]
    }

    /** The read of the parent. */
    method ReadParent(data: array<char>, lo: nat, hi: nat) returns (count: nat, err: Error, ghost got: string)
      requires parent.Valid() && lo <= hi <= data.Length
      modifies parent, parent.impl, data
      ensures parent.Valid() && count == |got| <= hi - lo
      ensures got + parent.Remaining() == old(parent.Remaining()) && data[..] == Put(old(data[..]), lo, got)
      ensures old(parent.Steady()) ==> parent.Steady()
      ensures old(parent.Steady()) && lo < hi && old(parent.Remaining()) != "" ==> count > 0
      ensures old(parent.Steady()) && hi - lo <= |old(parent.Remaining())| ==> err == NoError
    {
      count, err, got := parent.Read(data, lo, hi);
    }

    method Read(data: array<char>, lo: nat, hi: nat) returns (count: nat, err: Error, ghost got: string)
      requires Valid() && lo <= hi <= data.Length
      modifies this, parent, parent.impl, data
      ensures Valid() && count == |got| <= hi - lo && progress == old(progress) + count
      ensures got + Body() == old(Body()) && Beyond() == old(Beyond()) && data[..] == Put(old(data[..]), lo, got)
      ensures old(progress) == limit ==> count == 0 && err == Closed
      ensures old(parent.Steady()) ==> parent.Steady()
      ensures old(parent.Steady()) && lo < hi && old(Body()) != "" ==> count > 0
      ensures old(parent.Steady()) && lo < hi && old(progress) + |old(Body())| == limit && old(progress) < limit ==> err == NoError
    {
      if progress >= limit {
        got := "";
        PutNothing(data[..], lo);
        assert "" + Body() == Body();
        return 0, Closed, got;
      }
      ghost var r := parent.Remaining();
      count, err, got := ReadParent(data, lo, lo + Min(hi - lo, limit - progress));
      progress := progress + count;
      LimitStep(r, parent.Remaining(), got, limit - progress);
    }
  }

  lemma LimitStep(r: string, s: string, got: string, left: nat)
    requires got + s == r
    ensures got + s[..Min(left, |s|)] == r[..Min(left + |got|, |r|)]
    ensures s[Min(left, |s|)..] == r[Min(left + |got|, |r|)..]
  {
  }
}
