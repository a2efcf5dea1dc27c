/** The marker scan on envelopes that arrive cut short. */
module EnvelopeScan {
  import opened Octets
  import Envelope
  import MailHeader
  import Marker

  /** Between the first field and the empty line, no line end is followed by another. */
  ghost predicate Solid(w: Bytes) {
    && w != [] && w[0] != CR && w[0] != LF
    && |w| >= 2 && w[|w| - 2] == CR && w[|w| - 1] == LF
    && forall i :: 0 <= i < |w| - 1 && w[i] == LF ==> w[i + 1] != CR && w[i + 1] != LF
  }

  lemma FieldIsSolid(f: MailHeader.Field)
    requires MailHeader.Clean(f)
    ensures Solid(MailHeader.WriteField(f))
  {
    var w := MailHeader.WriteField(f);
    var n := |f.name|;
    assert forall i :: 0 <= i < n ==> w[i] == f.name[i];
    assert w[n] == ':' && w[n + 1] == ' ';
    assert forall i :: 0 <= i < |f.value| ==> w[n + 2 + i] == f.value[i];
    assert forall i :: n + 2 <= i < |w| - 2 ==> w[i] == f.value[i - n - 2];
  }

  lemma {:induction false} FieldsAreSolid(fs: seq<MailHeader.Field>)
    requires fs != [] && forall i :: 0 <= i < |fs| ==> MailHeader.Clean(fs[i])
    ensures Solid(MailHeader.WriteFields(fs))
  {
    hide MailHeader.WriteField, MailHeader.Clean;
    FieldIsSolid(fs[0]);
    var a := MailHeader.WriteField(fs[0]);
    if |fs| == 1 {
      assert fs[1..] == [];
      assert MailHeader.WriteFields(fs) == a + [];
      assert a + [] == a;
    } else {
      FieldsAreSolid(fs[1..]);
      var b := MailHeader.WriteFields(fs[1..]);
      var w := a + b;
      forall i | 0 <= i < |w| - 1 && w[i] == LF ensures w[i + 1] != CR && w[i + 1] != LF {
        if i < |a| - 1 { assert w[i + 1] == a[i + 1]; }
        else if i == |a| - 1 { assert w[i + 1] == b[0]; }
        else { assert w[i] == b[i - |a|] && w[i + 1] == b[i - |a| + 1]; }
      }
    }
  }

  /** The first octets of a message whose header is w. */
  lemma PrefixReads(w: Bytes, body: Bytes, k: nat)
    requires Solid(w) && |w| - 2 <= k <= |w| + 2 + |body|
    ensures var cut := (w + CRLF + body)[..k];
            && |cut| == k && (forall i :: 0 <= i < |w| && i < k ==> cut[i] == w[i])
            && (|w| < k ==> cut[|w|] == CR)
            && (k >= |w| + 2 ==> OccursAt(cut, Marker.CRLF2, |w| - 2))
  {
    var raw := w + CRLF + body;
    assert raw[|w|] == CR && raw[|w| + 1] == LF;
    if k >= |w| + 2 { assert raw[..k][|w| - 2..|w| + 2] == Marker.CRLF2; }
  }

  lemma NoEarlyCrlf(w: Bytes, cut: Bytes, i: int)
    requires Solid(w) && (forall n :: 0 <= n < |w| && n < |cut| ==> cut[n] == w[n])
    requires OccursAt(cut, Marker.CRLF2, i)
    ensures i >= |w| - 2
  {
    Marker.EmptyCrlfLineReads(cut, i);
  }

  lemma NoEarlyLf(w: Bytes, cut: Bytes, i: int)
    requires Solid(w) && (forall n :: 0 <= n < |w| && n < |cut| ==> cut[n] == w[n])
    requires |w| < |cut| ==> cut[|w|] == CR
    requires |cut| < |w| + 2
    ensures !OccursAt(cut, Marker.LF2, i)
  {
    if OccursAt(cut, Marker.LF2, i) {
      Marker.EmptyLfLineReads(cut, i);
    }
  }

  /** The scan of any prefix stops where the header does, or at the end of the prefix. */
  lemma ScanEndOnPrefix(w: Bytes, body: Bytes, k: nat)
    requires Solid(w) && |w| - 2 <= k <= |w| + 2 + |body|
    ensures Marker.ScanEnd((w + CRLF + body)[..k]) == if k >= |w| + 2 then |w| - 2 else k
  {
    var cut := (w + CRLF + body)[..k];
    PrefixReads(w, body, k);
    forall i: int | OccursAt(cut, Marker.CRLF2, i) ensures i >= |w| - 2 { NoEarlyCrlf(w, cut, i); }
    if k < |w| + 2 {
      forall i: int ensures !OccursAt(cut, Marker.LF2, i) { NoEarlyLf(w, cut, i); }
    }
    hide Solid;
  }

  const MARKER_LINE: Bytes := "X-RNS-Transport: 1"

  lemma MarkerLineTests()
    ensures Marker.IsMarkerLine(MARKER_LINE)
  {
    hide TrimSpace;
    var t := Marker.TrimCR(MARKER_LINE);
    assert t == MARKER_LINE;
    MarkerTrims();
    assert t[..15] == Marker.MARKER;
    assert t[16..] == [' ', '1'];
    assert forall k :: 0 <= k < 15 ==> t[k] == Marker.MARKER[k];
    assert forall k :: 0 <= k < 15 ==> Marker.MARKER[k] != ':';
    assert t[15] == ':';
  }

  lemma MarkerTrims()
    ensures TrimSpace(Marker.MARKER) == Marker.MARKER
    ensures TrimSpace([' ', '1']) == Marker.ONE
  {
    var s: Bytes := [' ', '1'];
    assert s[1..] == ['1'];
  }

  /** A marker line, and its line end as far as it is there, at the end of a scanned text. */
  lemma LastLineMarks(h: Bytes, line: Bytes, end: Bytes)
    requires h == [] || h[|h| - 1] == LF
    requires Marker.IsMarkerLine(line) && forall n :: 0 <= n < |line| ==> line[n] != LF
    requires end == [] || (end[0] == CR && (|end| > 1 ==> end[1] == LF))
    ensures Marker.HasMarkerLine(h + line + end)
  {
    hide Marker.IsMarkerLine, Marker.HasMarkerLine;
    if end == [] {
      LastLineAt(h, line, []);
      assert h + line + [] == h + line + end;
    } else {
      Marker.CRIsIgnored(line);
      LastLineAt(h, line + [CR], end[1..]);
      assert h + (line + [CR]) + end[1..] == h + line + end;
    }
  }

  lemma MiddleReads(h: Bytes, line: Bytes, rest: Bytes)
    ensures var s, i, m := h + line + rest, |h|, |h| + |line|;
            && s[i..m] == line && (i > 0 ==> s[i - 1] == h[i - 1]) && (rest != [] ==> s[m] == rest[0])
  {
  }

  lemma LastLineAt(h: Bytes, line: Bytes, rest: Bytes)
    requires h == [] || h[|h| - 1] == LF
    requires Marker.IsMarkerLine(line) && forall n :: 0 <= n < |line| ==> line[n] != LF
    requires rest == [] || rest[0] == LF
    ensures Marker.HasMarkerLine(h + line + rest)
  {
    hide Marker.IsMarkerLine;
    MiddleReads(h, line, rest);
    LineInside(h + line + rest, |h|, |h| + |line|, line);
  }

  lemma LineInside(s: Bytes, i: nat, m: nat, line: Bytes)
    requires i <= m <= |s| && s[i..m] == line && Marker.IsMarkerLine(line)
    requires (i == 0 || s[i - 1] == LF) && (m == |s| || s[m] == LF) && forall n :: 0 <= n < |line| ==> line[n] != LF
    ensures Marker.HasMarkerLine(s)
  {
    hide Marker.IsMarkerLine;
    assert forall n :: i <= n < m ==> s[n] == line[n - i];
    assert Marker.MarkerLineAt(s, i, m);
  }

  const LINE_END: Bytes := ['\r', '\n', '\r']

  lemma MarkerLineMarks(h: Bytes, n: nat)
    requires h == [] || h[|h| - 1] == LF
    requires n <= 3
    ensures Marker.HasMarkerLine(h + MARKER_LINE + LINE_END[..n])
  {
    hide Marker.IsMarkerLine, Marker.HasMarkerLine;
    var line, end := MARKER_LINE, LINE_END[..n];
    MarkerLineTests();
    MarkerLineIsOne();
    LastLineMarks(h, line, end);
  }

  lemma MarkerLineIsOne()
    ensures forall k :: 0 <= k < |MARKER_LINE| ==> MARKER_LINE[k] != LF
  {
  }

  lemma SlicesAgree(w: Bytes, body: Bytes, k: nat, e: nat)
    requires e <= k <= |w| + 2 + |body| && e <= |w| + 1
    ensures (w + CRLF + body)[..k][..e] == (w + [CR])[..e]
  {
    var raw := w + CRLF + body;
    assert forall n :: 0 <= n < |w| ==> raw[n] == w[n];
    assert raw[|w|] == CR;
  }

  /** A header that ends in the marker line is recognised on every prefix that holds that
      line, whether or not its line end, the empty line or any of the body arrived. */
  lemma MarkerOnPrefix(h: Bytes, body: Bytes, k: nat)
    requires h == [] || h[|h| - 1] == LF
    requires var w := h + MARKER_LINE + CRLF; Solid(w) && |w| - 2 <= k <= |w| + 2 + |body|
    ensures Marker.HasTransportMarker((h + MARKER_LINE + CRLF + CRLF + body)[..k])
  {
    hide Solid, Marker.HasTransportMarker, Marker.HasMarkerLine;
    var w := h + MARKER_LINE + CRLF;
    var raw := w + CRLF + body;
    assert raw == h + MARKER_LINE + CRLF + CRLF + body;
    ScanEndOnPrefix(w, body, k);
    var cut := raw[..k];
    var e := Marker.ScanEnd(cut);
    hide Marker.ScanEnd;
    SlicesAgree(w, body, k, e);
    var n := e - |h + MARKER_LINE|;
    assert w + [CR] == h + MARKER_LINE + LINE_END;
    assert cut[..e] == h + MARKER_LINE + LINE_END[..n];
    MarkerLineMarks(h, n);
    Marker.ScanIsExact(cut);
  }

  /** The header of an encoded message, as the scan sees it. */
  lemma HeaderIsSolid(p: Envelope.Params, mid: Bytes, date: Bytes) returns (h: Bytes)
    requires Envelope.CleanHeader(p, mid, date)
    ensures var w := MailHeader.WriteFields(Envelope.HeaderFields(p, mid, date));
            w == h + MARKER_LINE + CRLF && Solid(w)
    ensures h == [] || h[|h| - 1] == LF
  {
    hide Solid, MailHeader.Clean;
    var fs := Envelope.HeaderFields(p, mid, date);
    Envelope.CleanFields(p, mid, date);
    FieldsAreSolid(fs);
    h := MailHeader.WriteFields(fs[..7]);
    Envelope.WriteFieldsSnoc(fs[..7], fs[7]);
    assert fs[..7] + [fs[7]] == fs;
    LastFieldIsMarkerLine(fs[7]);
    var w := MailHeader.WriteFields(fs);
    assert w == h + (MARKER_LINE + CRLF);
    assert w == h + MARKER_LINE + CRLF;
    FieldsAreSolid(fs[..7]);
    SolidEndsLine(h);
  }

  /** Every encoded message keeps its marker on every prefix that contains the marker line. */
  lemma EncodedPrefixIsMarked(p: Envelope.Params, mid: Bytes, date: Bytes, k: nat)
    requires Envelope.CleanHeader(p, mid, date)
    requires |MailHeader.WriteFields(Envelope.HeaderFields(p, mid, date))| - 2 <= k <= |Envelope.Enveloped(p, mid, date)|
    ensures Marker.HasTransportMarker(Envelope.Enveloped(p, mid, date)[..k])
  {
    hide Marker.HasTransportMarker, Solid, Envelope.HeaderFields;
    var h := HeaderIsSolid(p, mid, date);
    var w := h + MARKER_LINE + CRLF;
    var raw := Envelope.Enveloped(p, mid, date);
    var body := raw[|w| + 2..];
    assert raw == w + CRLF + body;
    MarkerOnPrefix(h, body, k);
  }

  lemma SolidEndsLine(h: Bytes)
    requires Solid(h)
    ensures h[|h| - 1] == LF
  {
  }

  lemma LastFieldIsMarkerLine(f: MailHeader.Field)
    requires f == MailHeader.Field(Marker.MARKER, Marker.ONE)
    ensures MailHeader.WriteField(f) == MARKER_LINE + CRLF
  {
    assert Marker.MARKER + [':', ' '] + Marker.ONE == MARKER_LINE;
  }
}
