/** The raw scan for the transport marker that backs up the mail reader. */
module Marker {
  import opened Octets
  import MailHeader

  const MARKER: Bytes := "X-RNS-Transport"
  const ONE: Bytes := "1"
  const CRLF2: Bytes := ['\r', '\n', '\r', '\n']
  const LF2: Bytes := ['\n', '\n']

  /** Where the scan takes the header to end: at the first empty CRLF line of the whole input,
      else at the first empty LF line, else nowhere. */
  function ScanEnd(raw: Bytes): (e: nat)
    ensures e <= |raw|
  {
    match Search(raw, CRLF2)
    case Some(i) => i
    case None =>
      match Search(raw, LF2)
      case Some(i) => i
      case None => |raw|
  }

  predicate IsCR(c: Octet) { c == CR }

  function TrimCR(line: Bytes): Bytes { TrimRightBy(line, IsCR) }

  /** A line that carries the marker: not folded, and split by its first colon into the marker's
      name and the value 1, up to letter case and outer white space. */
  ghost predicate IsMarkerLine(line: Bytes) {
    var t := TrimCR(line);
    && t != [] && !IsBlank(t[0])
    && exists c :: && 0 <= c < |t| && t[c] == ':' && (forall k :: 0 <= k < c ==> t[k] != ':')
                   && EqualFold(TrimSpace(t[..c]), MARKER) && TrimSpace(t[c + 1..]) == ONE
  }

  /** The stretch i..j of h is a line that carries the marker. */
  ghost predicate MarkerLineAt(h: Bytes, i: int, j: int) { IsLine(h, i, j) && IsMarkerLine(h[i..j]) }

  /** Some line of h carries the marker. */
  ghost predicate HasMarkerLine(h: Bytes) { exists i, j :: MarkerLineAt(h, i, j) }

  /** Some line of the header, as the scan delimits it, carries the marker. */
  ghost predicate Marked(raw: Bytes) {
    HasMarkerLine(raw[..ScanEnd(raw)])
  }

  function TestLine(line: Bytes): bool {
    var t := TrimCR(line);
    if t == [] || IsBlank(t[0]) then false
    else
      var c := Find(t, ':');
      if c == |t| then false
      else EqualFold(TrimSpace(t[..c]), MARKER) && TrimSpace(t[c + 1..]) == ONE
  }

  lemma CRIsIgnored(line: Bytes)
    ensures IsMarkerLine(line + [CR]) <==> IsMarkerLine(line)
  {
    assert (line + [CR])[..|line|] == line;
    assert TrimCR(line + [CR]) == TrimCR(line);
    hide TrimCR, TrimSpace, EqualFold;
  }

  lemma TestLineExact(line: Bytes)
    ensures TestLine(line) <==> IsMarkerLine(line)
  {
    hide TrimSpace, EqualFold, TrimCR;
  }

  /* ---- The marker line, spelled out ---- */

  /** The line is the marker's name in any letter case, a colon and a 1, with white space
      around the name and the 1 and nowhere else. */
  ghost predicate Spelled(line: Bytes, a: Bytes, name: Bytes, b: Bytes, c: Bytes, d: Bytes) {
    && line == a + name + b + ([':'] + c + ['1'] + d)
    && All(a, IsSpace) && All(b, IsSpace) && All(c, IsSpace) && All(d, IsSpace)
    && EqualFold(name, MARKER)
  }

  lemma NameOfMarker(name: Bytes)
    requires EqualFold(name, MARKER)
    ensures |name| == 15 && IsCore(name, IsSpace) && forall i :: 0 <= i < |name| ==> name[i] != ':'
  {
    MarkerLetters();
    forall i | 0 <= i < |name| ensures name[i] != ':' && !IsSpace(name[i]) {
      assert Lower(name[i]) == Lower(MARKER[i]);
    }
  }

  lemma MarkerLetters()
    ensures |MARKER| == 15 && forall i :: 0 <= i < 15 ==> MARKER[i] != ':' && !IsSpace(MARKER[i])
  {
  }

  lemma PutTogether(t: Bytes, i: nat, front: Bytes, c: Bytes, e: Bytes, crs: Bytes)
    requires i < |t| && t[i] == ':' && t[..i] == front && t[i + 1..] == c + ['1'] + e
    ensures t + crs == front + ([':'] + c + ['1'] + (e + crs))
  {
    assert t == front + [':'] + (c + ['1'] + e);
  }

  lemma BothSpace(a: Bytes, b: Bytes)
    requires All(a, IsSpace) && All(b, IsCR)
    ensures All(a + b, IsSpace)
  {
  }

  lemma MarkerColon(line: Bytes) returns (i: nat)
    requires IsMarkerLine(line)
    ensures var t := TrimCR(line);
            i < |t| && t[i] == ':' && !IsBlank(t[0])
            && EqualFold(TrimSpace(t[..i]), MARKER) && TrimSpace(t[i + 1..]) == ['1']
  {
    hide EqualFold, TrimSpace, TrimCR;
    var t := TrimCR(line);
    i :| i < |t| && t[i] == ':' && EqualFold(TrimSpace(t[..i]), MARKER) && TrimSpace(t[i + 1..]) == ONE;
  }

  lemma MarkerIsSpelled(line: Bytes) returns (a: Bytes, name: Bytes, b: Bytes, c: Bytes, d: Bytes)
    requires IsMarkerLine(line)
    ensures line != [] && !IsBlank(line[0]) && Spelled(line, a, name, b, c, d)
  {
    hide EqualFold, IsSpace, All, IsCore, TrimLeftBy, TrimRightBy, IsMarkerLine;
    var i := MarkerColon(line);
    var t := TrimCR(line);
    var crs := TrimRightCuts(line, IsCR);
    a, b := TrimCuts(t[..i], IsSpace);
    name := TrimSpace(t[..i]);
    var e;
    c, e := TrimCuts(t[i + 1..], IsSpace);
    d := e + crs;
    PutTogether(t, i, a + name + b, c, e, crs);
    BothSpace(e, crs);
    assert line[0] == t[0];
  }

  /** Behind the 1 there is only white space, so the carriage returns at the end are among it. */
  lemma {:induction false} TrimTail(head: Bytes, d: Bytes) returns (e: Bytes)
    requires head != [] && head[|head| - 1] != CR && All(d, IsSpace)
    ensures TrimCR(head + d) == head + e && All(e, IsSpace)
  {
    if d == [] {
      e := [];
      assert head + d == head && head + e == head;
    } else {
      var n := |d| - 1;
      assert (head + d)[|head + d| - 1] == d[n] && (head + d)[..|head + d| - 1] == head + d[..n];
      if d[n] == CR { e := TrimTail(head, d[..n]); } else { e := d; }
    }
  }

  lemma SpelledIsMarker(line: Bytes, a: Bytes, name: Bytes, b: Bytes, c: Bytes, d: Bytes)
    requires line != [] && !IsBlank(line[0]) && Spelled(line, a, name, b, c, d)
    ensures IsMarkerLine(line)
  {
    var front, back := a + name + b, c + ['1'];
    NameOfMarker(name);
    var e := TrimTail(front + [':'] + back, d);
    assert line == front + [':'] + back + d;
    var t, i := TrimCR(line), |front|;
    assert t == front + [':'] + (back + e);
    assert t[i] == ':' && t[..i] == front && t[i + 1..] == back + e;
    TrimOf(a, name, b, IsSpace);
    TrimOf(c, ['1'], e, IsSpace);
    assert back + e == c + ['1'] + e;
    forall k | 0 <= k < i ensures t[k] != ':' { FrontHasNoColon(a, name, b, k); }
    assert t[0] == line[0];
    hide EqualFold, IsSpace;
  }

  lemma FrontHasNoColon(a: Bytes, name: Bytes, b: Bytes, k: nat)
    requires All(a, IsSpace) && All(b, IsSpace) && k < |a + name + b|
    requires forall i :: 0 <= i < |name| ==> name[i] != ':'
    ensures (a + name + b)[k] != ':'
  {
    if k < |a| {
      assert (a + name + b)[k] == a[k];
    } else if k < |a + name| {
      assert (a + name + b)[k] == name[k - |a|];
    } else {
      assert (a + name + b)[k] == b[k - |a + name|];
    }
  }

  /** A line marks a message exactly if it is spelled so and does not begin with a blank. */
  lemma MarkerLineIff(line: Bytes)
    ensures IsMarkerLine(line) <==>
            line != [] && !IsBlank(line[0]) && exists a, name, b, c, d :: Spelled(line, a, name, b, c, d)
  {
    hide Spelled, IsMarkerLine;
    if IsMarkerLine(line) { var a, name, b, c, d := MarkerIsSpelled(line); }
    if line != [] && !IsBlank(line[0]) && exists a, name, b, c, d :: Spelled(line, a, name, b, c, d) {
      var a, name, b, c, d :| Spelled(line, a, name, b, c, d);
      SpelledIsMarker(line, a, name, b, c, d);
    }
  }

  function TestLines(h: Bytes): bool
    decreases |h|
  {
    var j := Find(h, LF);
    TestLine(h[..j]) || (j < |h| && TestLines(h[j + 1..]))
  }

  function HasTransportMarker(raw: Bytes): bool { TestLines(raw[..ScanEnd(raw)]) }

  /** The lines of a header, cut at every LF. */
  function Split(h: Bytes): (lines: seq<Bytes>)
    ensures |lines| > 0
    decreases |h|
  {
    var j := Find(h, LF);
    if j == |h| then [h] else [h[..j]] + Split(h[j + 1..])
  }

  lemma {:induction false} TestLinesSplit(h: Bytes)
    ensures TestLines(h) <==> exists k :: 0 <= k < |Split(h)| && TestLine(Split(h)[k])
    decreases |h|
  {
    var j := Find(h, LF);
    if j == |h| {
      assert h[..j] == h;
      assert Split(h)[0] == h;
    } else {
      var t := h[j + 1..];
      TestLinesSplit(t);
      assert Split(h)[0] == h[..j];
      assert forall k :: 0 <= k < |Split(t)| ==> Split(h)[k + 1] == Split(t)[k];
      if k :| 0 <= k < |Split(h)| && TestLine(Split(h)[k]) {
        if k > 0 { assert TestLine(Split(t)[k - 1]); }
      }
    }
  }

  /** The scanning loop. */
  method ScanForMarker(raw: Bytes) returns (found: bool)
    ensures found == HasTransportMarker(raw)
    ensures found <==> Marked(raw)
  {
    hide IsMarkerLine, Marked, EqualFold, TrimSpace, TrimCR, TestLines, Split, ScanEnd;
    ghost var h := raw[..ScanEnd(raw)];
    var lines := Split(raw[..ScanEnd(raw)]);
    assert HasTransportMarker(raw) == TestLines(raw[..ScanEnd(raw)]);
    TestLinesSplit(raw[..ScanEnd(raw)]);
    ScanIsExact(raw);
    var n := 0;
    while n < |lines|
      invariant 0 <= n <= |lines|
      invariant forall k :: 0 <= k < n ==> !TestLine(lines[k])
    {
      var line := TrimCR(lines[n]);
      if line != [] && !IsBlank(line[0]) {
        var c := Find(line, ':');
        if c < |line| && EqualFold(TrimSpace(line[..c]), MARKER) && TrimSpace(line[c + 1..]) == ONE {
          assert TestLine(Split(h)[n]);
          return true;
        }
      }
      n := n + 1;
    }
    return false;
  }

  lemma LineOfTail(h: Bytes, e: nat, i: int, j: int)
    requires e < |h| && h[e] == LF && forall k :: 0 <= k < e ==> h[k] != LF
    ensures IsLine(h[e + 1..], i, j) <==> i >= 0 && IsLine(h, i + e + 1, j + e + 1)
    ensures IsLine(h[e + 1..], i, j) ==> h[e + 1..][i..j] == h[i + e + 1..j + e + 1]
    ensures IsLine(h, i, j) ==> (i == 0 && j == e) || i > e
  {
    var t := h[e + 1..];
    assert forall k :: 0 <= k < |t| ==> t[k] == h[k + e + 1];
    assert forall k :: e < k < |h| ==> h[k] == t[k - e - 1];
    if i > 0 && i - 1 < |t| { assert t[i - 1] == h[i + e]; }
  }

  lemma FirstLine(h: Bytes)
    ensures IsLine(h, 0, Find(h, LF)) && h[0..Find(h, LF)] == h[..Find(h, LF)]
  {
  }

  lemma MarkerLineOfTail(h: Bytes, e: nat, i: int, j: int)
    requires e < |h| && h[e] == LF && forall k :: 0 <= k < e ==> h[k] != LF
    ensures i >= 0 ==> (MarkerLineAt(h[e + 1..], i, j) <==> MarkerLineAt(h, i + e + 1, j + e + 1))
    ensures MarkerLineAt(h[e + 1..], i, j) ==> i >= 0
    ensures MarkerLineAt(h, i, j) ==> (i == 0 && j == e) || i > e
  {
    LineOfTail(h, e, i, j);
    hide IsMarkerLine;
  }

  lemma {:induction false} TestedLineExists(h: Bytes)
    requires TestLines(h)
    ensures HasMarkerLine(h)
    decreases |h|
  {
    var e := Find(h, LF);
    FirstLine(h);
    TestLineExact(h[..e]);
    hide IsMarkerLine, IsLine, TestLine;
    if TestLine(h[..e]) {
      assert MarkerLineAt(h, 0, e);
    } else {
      TestedLineExists(h[e + 1..]);
      hide MarkerLineAt;
      var i, j :| MarkerLineAt(h[e + 1..], i, j);
      MarkerLineOfTail(h, e, i, j);
      assert MarkerLineAt(h, i + e + 1, j + e + 1);
    }
  }

  lemma FirstLineIsTested(h: Bytes, j: int)
    requires MarkerLineAt(h, 0, j)
    ensures TestLine(h[..Find(h, LF)])
  {
    var e := Find(h, LF);
    assert j == e by { hide IsMarkerLine; }
    assert h[0..j] == h[..e];
    TestLineExact(h[..e]);
    hide IsMarkerLine, TestLine;
  }

  lemma LaterLineIsInTail(h: Bytes, i: int, j: int)
    requires MarkerLineAt(h, i, j) && i != 0
    ensures var e := Find(h, LF); e < i && e < |h| && MarkerLineAt(h[e + 1..], i - e - 1, j - e - 1)
  {
    hide IsMarkerLine;
    var e := Find(h, LF);
    assert h[i - 1] == LF;
    hide MarkerLineAt, IsLine;
    MarkerLineOfTail(h, e, i, j);
    MarkerLineOfTail(h, e, i - e - 1, j - e - 1);
  }

  lemma {:induction false} LineIsTested(h: Bytes, i: int, j: int)
    requires MarkerLineAt(h, i, j)
    ensures TestLines(h)
    decreases |h|
  {
    hide MarkerLineAt, TestLine;
    var e := Find(h, LF);
    if i == 0 {
      FirstLineIsTested(h, j);
    } else {
      LaterLineIsInTail(h, i, j);
      LineIsTested(h[e + 1..], i - e - 1, j - e - 1);
    }
  }

  lemma TestLinesExact(h: Bytes)
    ensures TestLines(h) <==> HasMarkerLine(h)
  {
    hide MarkerLineAt, TestLines;
    if TestLines(h) { TestedLineExists(h); }
    if HasMarkerLine(h) {
      var i, j :| MarkerLineAt(h, i, j);
      LineIsTested(h, i, j);
    }
  }

  /** The scan reports the marker exactly when a header line carries it. */
  lemma ScanIsExact(raw: Bytes)
    ensures HasTransportMarker(raw) <==> Marked(raw)
  {
    TestLinesExact(raw[..ScanEnd(raw)]);
  }

  /** The scan's own header block, separator included, ends within the first n octets. */
  predicate ScanEndsWithin(raw: Bytes, n: nat) {
    if Search(raw, CRLF2).Some? then Search(raw, CRLF2).value + 4 <= n
    else Search(raw, LF2).Some? && Search(raw, LF2).value + 2 <= n
  }

  lemma OccursInPrefix(raw: Bytes, pat: Bytes, k: nat, i: int)
    requires k <= |raw|
    ensures OccursAt(raw[..k], pat, i) <==> OccursAt(raw, pat, i) && i + |pat| <= k
  {
    if 0 <= i && i + |pat| <= k {
      assert raw[..k][i..i + |pat|] == raw[i..i + |pat|];
    }
  }

  lemma SearchPrefix(raw: Bytes, pat: Bytes, k: nat)
    requires k <= |raw|
    ensures Search(raw[..k], pat) ==
            if Search(raw, pat).Some? && Search(raw, pat).value + |pat| <= k then Search(raw, pat) else None
  {
    forall i: int ensures OccursAt(raw[..k], pat, i) <==> OccursAt(raw, pat, i) && i + |pat| <= k {
      OccursInPrefix(raw, pat, k, i);
    }
    var a, b := Search(raw[..k], pat), Search(raw, pat);
    if a.Some? {
      assert OccursAt(raw, pat, a.value);
      assert OccursAt(raw[..k], pat, b.value);
    }
  }

  lemma EmptyCrlfLineReads(s: Bytes, i: int)
    requires OccursAt(s, CRLF2, i)
    ensures s[i] == CR && s[i + 1] == LF && s[i + 2] == CR && s[i + 3] == LF
  {
    var o := s[i..i + 4];
    assert o[0] == CR && o[1] == LF && o[2] == CR && o[3] == LF;
  }

  lemma EmptyLfLineReads(s: Bytes, i: int)
    requires OccursAt(s, LF2, i)
    ensures s[i] == LF && s[i + 1] == LF
  {
    var o := s[i..i + 2];
    assert o[0] == LF && o[1] == LF;
  }

  /** Nothing behind the scan's header block can change its answer. */
  lemma ScanPrefix(raw: Bytes, k: nat)
    requires k <= |raw| && ScanEndsWithin(raw, k)
    ensures HasTransportMarker(raw[..k]) == HasTransportMarker(raw)
  {
    SearchPrefix(raw, CRLF2, k);
    SearchPrefix(raw, LF2, k);
    assert raw[..k][..ScanEnd(raw)] == raw[..ScanEnd(raw)];
  }

  lemma {:induction false} EmptyLineEndsHeader(a: Bytes, i: nat)
    requires i + 1 < |a| && a[i] == LF
    requires a[i + 1] == LF || (i + 2 < |a| && a[i + 1] == CR && a[i + 2] == LF)
    ensures MailHeader.HasBlankLine(a)
    decreases |a|
  {
    var f := Find(a, LF);
    var (line, rest) := MailHeader.Line(a);
    if line != [] {
      assert f <= i;
      assert rest == a[f + 1..];
      if f < i {
        EmptyLineEndsHeader(rest, i - f - 1);
      } else {
        assert rest[0] == a[i + 1];
        if rest[0] != LF { assert rest[1] == a[i + 2]; }
        assert MailHeader.Line(rest).0 == [];
      }
    }
  }

  /** The scan's header block holds the reader's. */
  lemma ScanEndClosesHeader(raw: Bytes, k: nat)
    requires k <= |raw| && ScanEndsWithin(raw, k)
    ensures MailHeader.HasBlankLine(raw[..k])
  {
    var a := raw[..k];
    SearchPrefix(raw, CRLF2, k);
    SearchPrefix(raw, LF2, k);
    if Search(a, CRLF2).Some? {
      var i := Search(a, CRLF2).value;
      EmptyCrlfLineReads(a, i);
      EmptyLineEndsHeader(a, i + 1);
    } else {
      var i := Search(a, LF2).value;
      EmptyLfLineReads(a, i);
      EmptyLineEndsHeader(a, i);
    }
  }
}
