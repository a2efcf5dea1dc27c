/** When the size cap on a literal changes the verdict on a message, and when it cannot. */
module Truncation {
  import opened Octets
  import Envelope
  import Literal
  import MailHeader
  import Marker

  /** What the cut leaves of the body is still too long to be accepted. */
  lemma CutBody(raw: Bytes, cut: Bytes)
    requires |raw| > Literal.MAX_LITERAL && cut == raw[..Literal.MAX_LITERAL]
    requires MailHeader.HasBlankLine(raw[..Literal.MAX_HEADER])
    ensures MailHeader.Read(cut).None? <==> MailHeader.Read(raw).None?
    ensures MailHeader.Read(raw).Some? ==>
              && MailHeader.Read(cut).value.fields == MailHeader.Read(raw).value.fields
              && |MailHeader.Read(cut).value.body| > Envelope.MAX_BODY
              && |MailHeader.Read(raw).value.body| > Envelope.MAX_BODY
  {
    var head := raw[..Literal.MAX_HEADER];
    MailHeader.ReadFieldsPrefix(head, cut[Literal.MAX_HEADER..]);
    MailHeader.ReadFieldsPrefix(head, raw[Literal.MAX_HEADER..]);
    assert head + cut[Literal.MAX_HEADER..] == cut;
    assert head + raw[Literal.MAX_HEADER..] == raw;
  }

  /** Two bodies that are both too long make no difference to the verdict. */
  lemma OversizedBodies(lib: Envelope.Library, a: MailHeader.Message, b: MailHeader.Message)
    requires a.fields == b.fields && |a.body| > Envelope.MAX_BODY && |b.body| > Envelope.MAX_BODY
    ensures Envelope.Judge(lib, a) == Envelope.Judge(lib, b)
  {
    hide MailHeader.Get, Envelope.DecodeBody;
  }

  /* ---- The marker scan of a cut message ---- */

  /** How far the scan of the first `limit` octets goes: to the first empty line it sees whole,
      an empty CRLF line before an empty LF line, or else to the cut. */
  function Reach(raw: Bytes, limit: nat): (e: nat)
    ensures e <= limit
  {
    var crlf, lf := Search(raw, Marker.CRLF2), Search(raw, Marker.LF2);
    if crlf.Some? && crlf.value + 4 <= limit then crlf.value
    else if lf.Some? && lf.value + 2 <= limit then lf.value
    else limit
  }

  /** The stretch i..c of s, from a line start to c, would pass for a marker line. */
  ghost predicate StubAt(s: Bytes, i: int, c: int) {
    && 0 <= i <= c <= |s| && (i == 0 || s[i - 1] == LF) && (forall k :: i <= k < c ==> s[k] != LF)
    && Marker.IsMarkerLine(s[i..c])
  }

  ghost predicate HasStub(s: Bytes, c: int) { exists i :: StubAt(s, i, c) }

  /** The scan of the cut message runs into the cut, and what the cut leaves of the line there
      passes for a marker line. */
  ghost predicate StubPasses(raw: Bytes, limit: nat) { Reach(raw, limit) == limit && HasStub(raw, limit) }

  /** A marker line of h ends at or before c. */
  ghost predicate MarkerLineBy(h: Bytes, c: int) { exists i, j :: Marker.MarkerLineAt(h, i, j) && j <= c }

  /** The cut takes the marker away: the header has a marker line, but each ends behind the
      reach of the cut message's scan, and no stub makes up for it. */
  ghost predicate Hides(raw: Bytes, limit: nat) {
    Marker.Marked(raw) && !MarkerLineBy(raw[..Marker.ScanEnd(raw)], Reach(raw, limit)) && !StubPasses(raw, limit)
  }

  /** The cut makes up a marker: the header goes on behind the cut and has no marker line, but
      the cut shortens one of its lines to a marker line. */
  ghost predicate Invents(raw: Bytes, limit: nat) {
    !Marker.Marked(raw) && Marker.ScanEnd(raw) > limit && StubPasses(raw, limit)
  }

  lemma PrefixMarked(h: Bytes, c: nat)
    requires c <= |h|
    ensures Marker.HasMarkerLine(h[..c]) <==> MarkerLineBy(h, c - 1) || HasStub(h, c)
  {
    hide Marker.IsMarkerLine;
    var g := h[..c];
    forall i, j | 0 <= i <= j <= c ensures g[i..j] == h[i..j] {
    }
    if Marker.HasMarkerLine(g) {
      var i, j :| Marker.MarkerLineAt(g, i, j);
      if j < c { assert Marker.MarkerLineAt(h, i, j); } else { assert StubAt(h, i, c); }
    }
    if i, j :| Marker.MarkerLineAt(h, i, j) && j < c { assert Marker.MarkerLineAt(g, i, j); }
    if i :| StubAt(h, i, c) { assert Marker.MarkerLineAt(g, i, c); }
  }

  /** A line that ends at c may count among those before c or as a stub. */
  lemma PrefixMarkedToo(h: Bytes, c: nat)
    requires c <= |h|
    ensures Marker.HasMarkerLine(h[..c]) <==> MarkerLineBy(h, c) || HasStub(h, c)
    ensures c == |h| || h[c] == LF ==> (HasStub(h, c) ==> MarkerLineBy(h, c))
  {
    hide Marker.IsMarkerLine, Marker.HasMarkerLine;
    PrefixMarked(h, c);
    if i, j :| Marker.MarkerLineAt(h, i, j) && j == c { assert StubAt(h, i, c); }
    if i :| StubAt(h, i, c) && (c == |h| || h[c] == LF) { assert Marker.MarkerLineAt(h, i, c); }
  }

  lemma StubOfPrefix(s: Bytes, n: nat, c: nat)
    requires c <= n <= |s|
    ensures HasStub(s[..n], c) <==> HasStub(s, c)
  {
    hide Marker.IsMarkerLine;
    forall i ensures StubAt(s[..n], i, c) <==> StubAt(s, i, c) {
      if 0 <= i <= c { assert s[..n][i..c] == s[i..c]; }
    }
  }

  lemma ReachIsScanEnd(raw: Bytes, limit: nat)
    requires limit <= |raw|
    ensures Marker.ScanEnd(raw[..limit]) == Reach(raw, limit)
    ensures Marker.HasTransportMarker(raw[..limit]) <==> Marker.HasMarkerLine(raw[..Reach(raw, limit)])
  {
    Marker.SearchPrefix(raw, Marker.CRLF2, limit);
    Marker.SearchPrefix(raw, Marker.LF2, limit);
    hide Marker.HasTransportMarker, Marker.HasMarkerLine;
    Marker.ScanIsExact(raw[..limit]);
    assert raw[..limit][..Reach(raw, limit)] == raw[..Reach(raw, limit)];
  }

  /** The cut falls inside the empty line at e. */
  ghost predicate EndsHalfway(raw: Bytes, e: int, limit: int) {
    || (e < limit < e + 4 && OccursAt(raw, Marker.CRLF2, e))
    || (e < limit < e + 2 && OccursAt(raw, Marker.LF2, e))
  }

  /** Where the scans of the message and of the cut message can end. */
  lemma Ends(raw: Bytes, limit: nat)
    requires limit < |raw|
    ensures var e, c := Marker.ScanEnd(raw), Reach(raw, limit);
            && (c < limit && c < e ==> raw[c] == LF)
            && (c > e ==> c == limit && EndsHalfway(raw, e, limit))
  {
    var crlf, lf := Search(raw, Marker.CRLF2), Search(raw, Marker.LF2);
    if crlf.Some? { Marker.EmptyCrlfLineReads(raw, crlf.value); }
    if lf.Some? { Marker.EmptyLfLineReads(raw, lf.value); }
  }

  lemma BlankIsNoMarker()
    ensures !Marker.IsMarkerLine([]) && !Marker.IsMarkerLine([CR])
  {
    var none: Bytes := [];
    assert Marker.TrimCR(none) == [];
    Marker.CRIsIgnored(none);
    assert none + [CR] == [CR];
  }

  /** Behind e, g holds no more than the beginning of an empty line. */
  ghost predicate BreaksOff(g: Bytes, e: int) {
    && 0 <= e < |g| <= e + 3
    && (g[e] == LF ==> |g| == e + 1)
    && (g[e] != LF ==> g[e] == CR && (|g| > e + 1 ==> g[e + 1] == LF) && (|g| > e + 2 ==> g[e + 2] == CR))
  }

  lemma HalfwayBreaksOff(raw: Bytes, e: nat, limit: nat)
    requires limit < |raw| && EndsHalfway(raw, e, limit)
    ensures BreaksOff(raw[..limit], e)
  {
    if OccursAt(raw, Marker.CRLF2, e) {
      Marker.EmptyCrlfLineReads(raw, e);
    } else {
      Marker.EmptyLfLineReads(raw, e);
    }
  }

  lemma WithCR(g: Bytes, i: int, e: int)
    requires 0 <= i <= e < |g| && g[e] == CR
    ensures Marker.IsMarkerLine(g[i..e + 1]) <==> Marker.IsMarkerLine(g[i..e])
  {
    hide Marker.IsMarkerLine;
    Marker.CRIsIgnored(g[i..e]);
    assert g[i..e + 1] == g[i..e] + [CR];
  }

  lemma StubGoesOn(g: Bytes, e: nat, i: int)
    requires BreaksOff(g, e) && StubAt(g, i, e)
    ensures Marker.HasMarkerLine(g)
  {
    hide Marker.IsMarkerLine;
    if g[e] == LF {
      assert Marker.MarkerLineAt(g, i, e);
    } else {
      WithCR(g, i, e);
      assert Marker.MarkerLineAt(g, i, e + 1);
    }
  }

  /** A line behind e is empty, or a single CR. */
  lemma BehindIsBlank(g: Bytes, e: nat, i: int, j: int)
    requires BreaksOff(g, e) && IsLine(g, i, j) && i > e
    ensures !Marker.IsMarkerLine(g[i..j])
  {
    BlankIsNoMarker();
    hide Marker.IsMarkerLine;
    assert g[i..j] == [] || g[i..j] == [CR];
  }

  lemma LineBreaksOff(g: Bytes, e: nat, i: int, j: int)
    requires BreaksOff(g, e) && Marker.MarkerLineAt(g, i, j)
    ensures j < e || StubAt(g, i, e)
  {
    hide Marker.IsMarkerLine;
    if i > e {
      BehindIsBlank(g, e, i, j);
    } else if j > e {
      assert g[e] == CR && j == e + 1;
      WithCR(g, i, e);
    }
  }

  /** A cut inside the empty line that ends the header changes nothing. */
  lemma HalfwayIsHarmless(raw: Bytes, e: nat, limit: nat)
    requires limit < |raw| && EndsHalfway(raw, e, limit)
    ensures Marker.HasMarkerLine(raw[..limit]) <==> Marker.HasMarkerLine(raw[..e])
  {
    var g := raw[..limit];
    HalfwayBreaksOff(raw, e, limit);
    assert g[..e] == raw[..e];
    PrefixMarked(g, e);
    hide EndsHalfway, BreaksOff, StubAt, Marker.MarkerLineAt;
    if Marker.HasMarkerLine(g) {
      var i, j :| Marker.MarkerLineAt(g, i, j);
      LineBreaksOff(g, e, i, j);
    }
    if i :| StubAt(g, i, e) { StubGoesOn(g, e, i); }
  }

  /** The scans of the message and of the cut message disagree exactly if the cut hides or
      invents a marker. */
  lemma ScansAgreeIff(raw: Bytes, limit: nat)
    requires limit < |raw|
    ensures Hides(raw, limit) <==> Marker.HasTransportMarker(raw) && !Marker.HasTransportMarker(raw[..limit])
    ensures Invents(raw, limit) <==> !Marker.HasTransportMarker(raw) && Marker.HasTransportMarker(raw[..limit])
  {
    hide Marker.HasTransportMarker, Marker.HasMarkerLine, Marker.ScanEnd, Reach, MarkerLineBy, HasStub, EndsHalfway;
    var e, c := Marker.ScanEnd(raw), Reach(raw, limit);
    var h := raw[..e];
    ReachIsScanEnd(raw, limit);
    Marker.ScanIsExact(raw);
    Ends(raw, limit);
    assert Marker.Marked(raw) == Marker.HasMarkerLine(h);
    assert h[..e] == h;
    PrefixMarkedToo(h, e);
    if c > e {
      HalfwayIsHarmless(raw, e, limit);
      if MarkerLineBy(h, e) { ByLater(h, e, c); }
    } else {
      assert h[..c] == raw[..c];
      PrefixMarkedToo(h, c);
      StubOfPrefix(raw, e, c);
      if MarkerLineBy(h, c) { ByLater(h, c, e); }
    }
  }

  lemma ByLater(h: Bytes, c: int, d: int)
    requires MarkerLineBy(h, c) && c <= d
    ensures MarkerLineBy(h, d)
  {
    hide Marker.MarkerLineAt;
  }

  /* ---- The verdict on a cut message ---- */

  /** With the header, up to its first empty line, within its budget, the cut literal of a
      message of any length gets the verdict of the whole, exactly if the message is not cut,
      the mail reader accepts it, or the cut neither hides nor invents a marker line. */
  lemma TruncationInvisibleIff(lib: Envelope.Library, raw: Bytes)
    requires MailHeader.HasBlankLine(Literal.Truncate(raw, Literal.MAX_HEADER))
    ensures Envelope.Decode(lib, Literal.Truncate(raw, Literal.MAX_LITERAL)) == Envelope.Decode(lib, raw)
            <==> || |raw| <= Literal.MAX_LITERAL
                 || MailHeader.Read(raw).Some?
                 || (!Hides(raw, Literal.MAX_LITERAL) && !Invents(raw, Literal.MAX_LITERAL))
  {
    if |raw| > Literal.MAX_LITERAL {
      var cut := raw[..Literal.MAX_LITERAL];
      CutBody(raw, cut);
      ScansAgreeIff(raw, Literal.MAX_LITERAL);
      hide Envelope.Judge, MailHeader.Read, Marker.HasTransportMarker, MailHeader.HasBlankLine, Hides, Invents;
      if MailHeader.Read(raw).Some? {
        OversizedBodies(lib, MailHeader.Read(cut).value, MailHeader.Read(raw).value);
      }
    } else {
      hide Envelope.Decode, Hides, Invents;
    }
  }

  /** Truncation is invisible for every message whose header is within 16 KiB, if the mail
      reader accepts it or the scan finds the end of its header in what is kept. */
  lemma TruncationInvisible(lib: Envelope.Library, raw: Bytes)
    requires MailHeader.HasBlankLine(Literal.Truncate(raw, Literal.MAX_HEADER))
    requires || |raw| <= Literal.MAX_LITERAL || MailHeader.Read(raw).Some?
             || Marker.ScanEndsWithin(raw, Literal.MAX_LITERAL)
    ensures Envelope.Decode(lib, Literal.Truncate(raw, Literal.MAX_LITERAL)) == Envelope.Decode(lib, raw)
  {
    hide Envelope.Decode, Hides, Invents;
    TruncationInvisibleIff(lib, raw);
    hide Marker.HasTransportMarker;
    if |raw| > Literal.MAX_LITERAL && MailHeader.Read(raw).None? {
      Marker.ScanPrefix(raw, Literal.MAX_LITERAL);
      ScansAgreeIff(raw, Literal.MAX_LITERAL);
    }
  }

  /* ---- The two ways in which the cut does show ---- */

  const DEEP_LINE: Bytes := "X-RNS-Transport:1"

  /** A message with bare LF line ends, a header line without a colon, and the marker deep in
      its body before an empty CRLF line. */
  function DeepMarker(pad: nat): (raw: Bytes)
    ensures |raw| == pad + 25
    ensures raw[0] == 'x' && raw[1] == LF && raw[2] == LF && raw[pad + 3] == LF
    ensures forall k :: 3 <= k < pad + 3 ==> raw[k] == 'a'
    ensures forall k :: pad + 4 <= k < pad + 21 ==> raw[k] == DEEP_LINE[k - pad - 4]
    ensures raw[pad + 21..] == Marker.CRLF2
  {
    ['x', '\n', '\n'] + seq(pad, _ => 'a') + ['\n'] + DEEP_LINE + Marker.CRLF2
  }

  lemma OccurrenceBegins(s: Bytes, pat: Bytes, i: int)
    requires pat != [] && OccursAt(s, pat, i)
    ensures s[i] == pat[0]
  {
    assert s[i..i + |pat|][0] == pat[0];
  }

  lemma MarkerIsTrim()
    ensures TrimSpace(Marker.MARKER) == Marker.MARKER && TrimSpace(Marker.ONE) == Marker.ONE
  {
  }

  lemma DeepLineIsMarker()
    ensures Marker.IsMarkerLine(DEEP_LINE)
  {
    hide TrimSpace;
    var t := Marker.TrimCR(DEEP_LINE);
    assert t == DEEP_LINE;
    MarkerIsTrim();
    assert t[..15] == Marker.MARKER && t[16..] == Marker.ONE;
    assert EqualFold(TrimSpace(t[..15]), Marker.MARKER);
    assert forall k :: 0 <= k < 15 ==> t[k] == Marker.MARKER[k];
    assert forall k :: 0 <= k < 15 ==> Marker.MARKER[k] != ':';
    assert t[15] == ':';
  }

  lemma DeepMarkerFound(pad: nat)
    ensures Marker.HasTransportMarker(DeepMarker(pad))
  {
    hide DeepMarker, Marker.IsMarkerLine, Marker.HasTransportMarker;
    var raw := DeepMarker(pad);
    assert raw[pad + 21..] == raw[pad + 21..pad + 25];
    assert OccursAt(raw, Marker.CRLF2, pad + 21);
    forall k: int | k < pad + 21 ensures !OccursAt(raw, Marker.CRLF2, k) {
      if OccursAt(raw, Marker.CRLF2, k) { OccurrenceBegins(raw, Marker.CRLF2, k); }
    }
    assert Marker.ScanEnd(raw) == pad + 21;
    var h := raw[..pad + 21];
    assert |DEEP_LINE| == 17;
    assert forall k :: 0 <= k < 17 ==> h[k + pad + 4] == DEEP_LINE[k];
    assert h[pad + 4..pad + 21] == DEEP_LINE;
    DeepLineIsMarker();
    assert Marker.MarkerLineAt(h, pad + 4, pad + 21);
    Marker.ScanIsExact(raw);
  }

  lemma DeepMarkerCut(pad: nat, k: nat)
    requires 3 <= k <= pad + 3
    ensures !Marker.HasTransportMarker(DeepMarker(pad)[..k])
  {
    hide DeepMarker;
    var cut := DeepMarker(pad)[..k];
    forall i: int ensures !OccursAt(cut, Marker.CRLF2, i) {
      if OccursAt(cut, Marker.CRLF2, i) { OccurrenceBegins(cut, Marker.CRLF2, i); }
    }
    if OccursAt(cut, Marker.LF2, 0) { OccurrenceBegins(cut, Marker.LF2, 0); }
    assert cut[1..3] == Marker.LF2;
    assert OccursAt(cut, Marker.LF2, 1);
    assert Marker.ScanEnd(cut) == 1;
    assert cut[..1] == ['x'];
    assert Find(['x'], LF) == 1;
    assert ['x'][..1] == ['x'];
  }

  lemma MalformedHead(rest: Bytes)
    ensures MailHeader.HasBlankLine(['x', '\n', '\n'])
    ensures MailHeader.Read(['x', '\n', '\n'] + rest).None?
  {
    var head: Bytes := ['x', '\n', '\n'];
    assert Find(head, LF, 1) == 1;
    assert head[..1] == ['x'] && head[2..] == ['\n'];
    assert MailHeader.Line(head) == (['x'], ['\n']);
    var x: Bytes := ['x'];
    assert Find(x, ':', 1) == 1;
    assert MailHeader.Cut(x).None?;
    Marker.EmptyLineEndsHeader(head, 1);
    MailHeader.ReadFieldsPrefix(head, rest);
  }

  /** The header of this message takes three octets, yet the cut turns "ours but broken" into
      "not ours": the scan of the whole message reads far past the header. */
  lemma TruncationCanHideMarker(lib: Envelope.Library)
    ensures var raw := DeepMarker(Literal.MAX_LITERAL);
            && MailHeader.HasBlankLine(raw[..3])
            && Envelope.Decode(lib, raw) == Envelope.Broken
            && Envelope.Decode(lib, Literal.Truncate(raw, Literal.MAX_LITERAL)) == Envelope.NotTransport
  {
    hide DeepMarker, MailHeader.Read, MailHeader.HasBlankLine, Marker.HasTransportMarker;
    var raw := DeepMarker(Literal.MAX_LITERAL);
    var cut := raw[..Literal.MAX_LITERAL];
    DeepMarkerFound(Literal.MAX_LITERAL);
    DeepMarkerCut(Literal.MAX_LITERAL, Literal.MAX_LITERAL);
    var head: Bytes := ['x', '\n', '\n'];
    assert raw[..3] == head;
    MalformedHead(raw[3..]);
    MalformedHead(cut[3..]);
    assert head + raw[3..] == raw && head + cut[3..] == cut;
  }

  /** A message with bare LF line ends before an empty CRLF line, a header line without a
      colon, and a last line that is one octet too long for a marker. */
  function LongMarker(pad: nat): (raw: Bytes)
    ensures |raw| == pad + 23
    ensures raw[..4] == ['x', '\n', '\r', '\n'] && raw[pad + 4] == LF && raw[pad + 22] == '2'
    ensures forall k :: 4 <= k < pad + 4 ==> raw[k] == 'a'
    ensures forall k :: pad + 5 <= k < pad + 22 ==> raw[k] == DEEP_LINE[k - pad - 5]
  {
    ['x', '\n', '\r', '\n'] + seq(pad, _ => 'a') + ['\n'] + DEEP_LINE + ['2']
  }

  lemma LongMarkerScan(pad: nat, k: nat)
    requires 0 < pad && pad + 22 <= k <= pad + 23
    ensures Marker.ScanEnd(LongMarker(pad)[..k]) == k
  {
    hide LongMarker;
    var raw := LongMarker(pad);
    var cut := raw[..k];
    assert forall n :: 0 <= n < 4 ==> raw[n] == raw[..4][n];
    assert forall n :: 0 <= n < 17 ==> DEEP_LINE[n] != LF && DEEP_LINE[n] != CR;
    forall n: int ensures !OccursAt(cut, Marker.CRLF2, n) && !OccursAt(cut, Marker.LF2, n) {
      if OccursAt(cut, Marker.CRLF2, n) { Marker.EmptyCrlfLineReads(cut, n); }
      if OccursAt(cut, Marker.LF2, n) { Marker.EmptyLfLineReads(cut, n); }
    }
  }

  lemma LongLineIsNoMarker()
    ensures !Marker.IsMarkerLine(DEEP_LINE + ['2'])
  {
    var t := Marker.TrimCR(DEEP_LINE + ['2']);
    assert t == DEEP_LINE + ['2'];
    assert forall k :: 0 <= k < 15 ==> t[k] == Marker.MARKER[k];
    assert forall k :: 0 <= k < 15 ==> Marker.MARKER[k] != ':';
    assert t[15] == ':' && t[16..] == ['1', '2'];
    assert TrimSpace(['1', '2']) == ['1', '2'];
  }

  lemma LongMarkerUnmarked(pad: nat)
    requires 0 < pad
    ensures !Marker.HasTransportMarker(LongMarker(pad))
  {
    hide LongMarker, Marker.HasTransportMarker, TrimSpace, EqualFold;
    var raw := LongMarker(pad);
    LongMarkerScan(pad, pad + 23);
    assert raw[..pad + 23] == raw;
    Marker.ScanIsExact(raw);
    hide Marker.ScanEnd;
    if Marker.HasTransportMarker(raw) {
      var i, j :| Marker.MarkerLineAt(raw, i, j);
      LongMarkerLine(pad, i, j);
    }
  }

  /** The only place for a colon, and the only line that holds it. */
  lemma LongMarkerColon(pad: nat, p: int)
    ensures var raw := LongMarker(pad); 0 <= p < |raw| && raw[p] == ':' ==> pad + 5 <= p < pad + 22
    ensures var raw := LongMarker(pad); forall k :: pad + 5 <= k < |raw| ==> raw[k] != LF
    ensures LongMarker(pad)[pad + 5..] == DEEP_LINE + ['2']
  {
    hide LongMarker;
    var raw := LongMarker(pad);
    assert forall n :: 0 <= n < 4 ==> raw[n] == raw[..4][n];
    assert forall n :: 0 <= n < 17 ==> DEEP_LINE[n] != LF;
    assert |DEEP_LINE| == 17;
  }

  lemma {:induction false} TrimmedIsPrefix(s: Bytes)
    ensures var t := Marker.TrimCR(s); |t| <= |s| && t == s[..|t|]
  {
    if s != [] && s[|s| - 1] == CR { TrimmedIsPrefix(s[..|s| - 1]); }
  }

  lemma MarkerLineHasColon(line: Bytes) returns (p: nat)
    requires Marker.IsMarkerLine(line)
    ensures p < |line| && line[p] == ':'
  {
    hide TrimSpace, EqualFold, Marker.TrimCR;
    var t := Marker.TrimCR(line);
    p :| p < |t| && t[p] == ':';
    TrimmedIsPrefix(line);
  }

  lemma LongMarkerLine(pad: nat, i: int, j: int)
    ensures !Marker.MarkerLineAt(LongMarker(pad), i, j)
  {
    hide LongMarker, Marker.IsMarkerLine;
    var raw := LongMarker(pad);
    if Marker.MarkerLineAt(raw, i, j) {
      var p := MarkerLineHasColon(raw[i..j]);
      LongMarkerColon(pad, i + p);
      assert raw[i + p] == ':';
      assert raw[pad + 4] == LF;
      assert i == pad + 5 && j == |raw|;
      assert raw[i..j] == raw[pad + 5..];
      LongLineIsNoMarker();
    }
  }

  lemma LongMarkerCut(pad: nat)
    requires 0 < pad
    ensures Marker.HasTransportMarker(LongMarker(pad)[..pad + 22])
  {
    hide LongMarker, Marker.IsMarkerLine, Marker.HasTransportMarker;
    var cut := LongMarker(pad)[..pad + 22];
    LongMarkerScan(pad, pad + 22);
    Marker.ScanIsExact(cut);
    assert cut[..pad + 22] == cut;
    assert forall n :: 0 <= n < 17 ==> DEEP_LINE[n] != LF;
    assert cut[pad + 5..pad + 22] == DEEP_LINE;
    DeepLineIsMarker();
    assert Marker.MarkerLineAt(cut, pad + 5, pad + 22);
  }

  /** The header of this message takes four octets, yet the cut turns "not ours" into "ours
      but broken": it shortens a line to the marker. */
  lemma TruncationCanInventMarker(lib: Envelope.Library)
    ensures var raw := LongMarker(Literal.MAX_LITERAL - 22);
            && MailHeader.HasBlankLine(raw[..4])
            && Envelope.Decode(lib, raw) == Envelope.NotTransport
            && Envelope.Decode(lib, Literal.Truncate(raw, Literal.MAX_LITERAL)) == Envelope.Broken
  {
    hide LongMarker, MailHeader.Read, MailHeader.HasBlankLine, Marker.HasTransportMarker;
    var raw := LongMarker(Literal.MAX_LITERAL - 22);
    var cut := raw[..Literal.MAX_LITERAL];
    LongMarkerUnmarked(Literal.MAX_LITERAL - 22);
    LongMarkerCut(Literal.MAX_LITERAL - 22);
    var head: Bytes := ['x', '\n', '\r', '\n'];
    MalformedCrHead(raw[4..]);
    MalformedCrHead(cut[4..]);
    assert head + raw[4..] == raw && head + cut[4..] == cut;
  }

  lemma MalformedCrHead(rest: Bytes)
    ensures MailHeader.HasBlankLine(['x', '\n', '\r', '\n'])
    ensures MailHeader.Read(['x', '\n', '\r', '\n'] + rest).None?
  {
    var head: Bytes := ['x', '\n', '\r', '\n'];
    assert Find(head, LF, 1) == 1;
    assert head[..1] == ['x'] && head[2..] == ['\r', '\n'];
    assert MailHeader.Line(head) == (['x'], ['\r', '\n']);
    var x: Bytes := ['x'];
    assert Find(x, ':', 1) == 1;
    assert MailHeader.Cut(x).None?;
    Marker.EmptyLineEndsHeader(head, 1);
    MailHeader.ReadFieldsPrefix(head, rest);
  }
}
