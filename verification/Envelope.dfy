/** The transport envelope: a packet written as a one-part message, and the two-phase decoder
    that tells "not ours" from "ours but broken" from a valid packet. */
module Envelope {
  import opened Octets
  import Base64
  import MailHeader
  import Marker
  import Wrapping

  /** The library parsers that the envelope relies on; None stands for their errors. */
  datatype Library = Library(parseAddress: Bytes -> Option<Bytes>,
                             parseMediaType: Bytes -> Option<Bytes>,
                             unquote: Bytes -> Option<Bytes>)

  const MAX_BODY: nat := 0x10_0000
  const MAX_PACKET: int := Wrapping.Capacity(MAX_BODY)

  const OCTET_STREAM: Bytes := "application/octet-stream"

  datatype Params = Params(from: Bytes, to: Bytes, packet: Bytes)
  datatype Decoded = Decoded(messageId: Bytes, from: Bytes, to: Bytes, packet: Bytes)
  datatype Verdict = NotTransport | Broken | Valid(decoded: Decoded)

  /* ---- Encoding ---- */

  function LastIndex(s: Bytes, c: Octet): (r: Option<nat>)
    ensures r.Some? ==> r.value < |s| && s[r.value] == c && forall k :: r.value < k < |s| ==> s[k] != c
    ensures r.None? ==> c !in s
  {
    if s == [] then None
    else if s[|s| - 1] == c then Some(|s| - 1)
    else LastIndex(s[..|s| - 1], c)
  }

  /** An address without its display name, or as it is when it does not parse. */
  function Bare(lib: Library, addr: Bytes): Bytes {
    match lib.parseAddress(addr) case Some(a) => a case None => addr
  }

  function DomainFromAddr(lib: Library, addr: Bytes): Bytes {
    var bare := Bare(lib, addr);
    match LastIndex(bare, '@')
    case Some(i) => bare[i + 1..]
    case None => "rns-transport"
  }

  function MessageId(lib: Library, from: Bytes, uuid: Bytes): Bytes {
    ['<'] + uuid + ['@'] + DomainFromAddr(lib, from) + ['>']
  }

  function HeaderFields(p: Params, mid: Bytes, date: Bytes): (fs: seq<MailHeader.Field>)
    ensures |fs| == 8
  {
    [ MailHeader.Field("From", p.from),
      MailHeader.Field("To", p.to),
      MailHeader.Field("Date", date),
      MailHeader.Field("Message-ID", mid),
      MailHeader.Field("MIME-Version", "1.0"),
      MailHeader.Field("Content-Type", OCTET_STREAM),
      MailHeader.Field("Content-Transfer-Encoding", "base64"),
      MailHeader.Field(Marker.MARKER, Marker.ONE) ]
  }

  function Compose(p: Params, mid: Bytes, date: Bytes, body: Bytes): Bytes {
    MailHeader.WriteFields(HeaderFields(p, mid, date)) + CRLF + body
  }

  function Enveloped(p: Params, mid: Bytes, date: Bytes): Bytes {
    Compose(p, mid, date, Wrapping.Wrap(Base64.Encode(p.packet)))
  }

  lemma {:induction false} WriteFieldsSnoc(fs: seq<MailHeader.Field>, f: MailHeader.Field)
    ensures MailHeader.WriteFields(fs + [f]) == MailHeader.WriteFields(fs) + MailHeader.WriteField(f)
  {
    if fs == [] {
      assert fs + [f] == [f];
    } else {
      WriteFieldsSnoc(fs[1..], f);
      assert (fs + [f])[1..] == fs[1..] + [f];
    }
  }

  /** Encoding refuses an incomplete request and otherwise writes the whole message. */
  method Encode(lib: Library, p: Params, uuid: Bytes, date: Bytes) returns (raw: Option<Bytes>, mid: Bytes)
    ensures raw.None? <==> p.from == [] || p.to == [] || p.packet == []
    ensures raw.Some? ==> mid == MessageId(lib, p.from, uuid) && raw.value == Enveloped(p, mid, date)
  {
    if p.from == [] || p.to == [] || |p.packet| == 0 {
      return None, [];
    }
    mid := MessageId(lib, p.from, uuid);
    var fields := HeaderFields(p, mid, date);
    var buf: Bytes := [];
    for i := 0 to |fields|
      invariant buf == MailHeader.WriteFields(fields[..i])
    {
      WriteFieldsSnoc(fields[..i], fields[i]);
      assert fields[..i] + [fields[i]] == fields[..i + 1];
      buf := buf + MailHeader.WriteField(fields[i]);
    }
    assert fields[..|fields|] == fields;
    buf := buf + CRLF;
    var body := Wrapping.WriteWrapped(Base64.Encode(p.packet));
    raw := Some(buf + body);
  }

  /* ---- Decoding ---- */

  /** Header.Get: the empty string when the field is missing. */
  function Header(m: MailHeader.Message, name: Bytes): Bytes { MailHeader.Get(m.fields, name) }

  function HasMarker(m: MailHeader.Message): bool { Header(m, Marker.MARKER) == Marker.ONE }

  function ExtractAddress(lib: Library, m: MailHeader.Message, name: Bytes): Option<Bytes> {
    var raw := Header(m, name);
    if raw == [] then None else lib.parseAddress(raw)
  }

  function DecodeBody(lib: Library, body: Bytes, cte: Bytes): Option<Bytes> {
    var name := LowerAll(TrimSpace(cte));
    if name == "base64" then Base64.Decode(Wrapping.Strip(body))
    else if name == "quoted-printable" then lib.unquote(body)
    else if name == "7bit" || name == "8bit" || name == "binary" || name == "" then Some(body)
    else None
  }

  /** Phase A, the header: Some(addresses) for a transport message with usable addresses,
      None with the verdict on everything else. */
  datatype HeaderCheck = Reject(verdict: Verdict) | Accept(from: Bytes, to: Bytes)

  function CheckHeader(lib: Library, m: MailHeader.Message): HeaderCheck {
    var marked := HasMarker(m);
    var bad := Reject(if marked then Broken else NotTransport);
    var ct := Header(m, "Content-Type");
    if ct == [] then bad
    else
      var mediaType := lib.parseMediaType(ct);
      if mediaType.None? then bad
      else if !(marked && mediaType.value == OCTET_STREAM) then bad
      else
        var from := ExtractAddress(lib, m, "From");
        var to := ExtractAddress(lib, m, "To");
        if from.None? || to.None? then Reject(Broken) else Accept(from.value, to.value)
  }

  /** Phase B, the body of a confirmed transport message. */
  function CheckBody(lib: Library, m: MailHeader.Message, from: Bytes, to: Bytes): Verdict {
    if |m.body| > MAX_BODY then Broken
    else
      var packet := DecodeBody(lib, m.body, Header(m, "Content-Transfer-Encoding"));
      if packet.None? || packet.value == [] then Broken
      else Valid(Decoded(Header(m, "Message-ID"), from, to, packet.value))
  }

  function Judge(lib: Library, m: MailHeader.Message): Verdict {
    match CheckHeader(lib, m)
    case Reject(v) => v
    case Accept(from, to) => CheckBody(lib, m, from, to)
  }

  function Decode(lib: Library, raw: Bytes): Verdict {
    match MailHeader.Read(raw)
    case None => if Marker.HasTransportMarker(raw) then Broken else NotTransport
    case Some(m) => Judge(lib, m)
  }

  /* ---- Round trip ---- */

  /** Text that can stand as a header value: one line, no blank at either edge. */
  ghost predicate CleanValue(s: Bytes) {
    && s != [] && !IsBlank(s[0]) && !IsBlank(s[|s| - 1])
    && forall i :: 0 <= i < |s| ==> s[i] != CR && s[i] != LF
  }

  /** An address that the address parser accepts, with or without a display name. */
  ghost predicate CleanAddress(lib: Library, a: Bytes) {
    CleanValue(a) && lib.parseAddress(a).Some? && CleanValue(Bare(lib, a))
  }

  ghost predicate CleanRequest(lib: Library, p: Params, uuid: Bytes, date: Bytes) {
    && CleanAddress(lib, p.from) && CleanAddress(lib, p.to)
    && CleanValue(uuid) && CleanValue(date)
    && lib.parseMediaType(OCTET_STREAM) == Some(OCTET_STREAM)
  }

  /** Header values that survive the wire; nothing is asked of the address parser. */
  ghost predicate CleanHeader(p: Params, mid: Bytes, date: Bytes) {
    CleanValue(p.from) && CleanValue(p.to) && CleanValue(mid) && CleanValue(date)
  }

  lemma CleanMessageId(lib: Library, p: Params, uuid: Bytes, date: Bytes)
    requires CleanRequest(lib, p, uuid, date)
    ensures CleanHeader(p, MessageId(lib, p.from, uuid), date)
  {
    var domain := DomainFromAddr(lib, p.from);
    assert forall i :: 0 <= i < |domain| ==> domain[i] != CR && domain[i] != LF;
  }

  ghost predicate CleanName(s: Bytes) {
    && s != [] && !IsBlank(s[0])
    && forall i :: 0 <= i < |s| ==> s[i] != ':' && s[i] != CR && s[i] != LF
  }

  lemma ShortNamesAreClean()
    ensures CleanName("From") && CleanName("To") && CleanName("Date") && CleanName("Message-ID")
  {
  }

  lemma LongNamesAreClean()
    ensures CleanName("MIME-Version") && CleanName("Content-Type")
    ensures CleanName("Content-Transfer-Encoding") && CleanName(Marker.MARKER)
  {
  }

  lemma ConstantsAreClean()
    ensures CleanValue("1.0") && CleanValue("base64") && CleanValue(Marker.ONE)
    ensures CleanValue(OCTET_STREAM)
  {
  }

  lemma CleanFields(p: Params, mid: Bytes, date: Bytes)
    requires CleanHeader(p, mid, date)
    ensures var fs := HeaderFields(p, mid, date);
            forall i :: 0 <= i < |fs| ==> MailHeader.Clean(fs[i])
  {
    hide CleanName, CleanValue, MailHeader.Clean;
    ShortNamesAreClean();
    LongNamesAreClean();
    ConstantsAreClean();
    var fs := HeaderFields(p, mid, date);
    forall i | 0 <= i < |fs| ensures MailHeader.Clean(fs[i]) {
      assert CleanName(fs[i].name) && CleanValue(fs[i].value);
      CleanField(fs[i]);
    }
  }

  lemma CleanField(f: MailHeader.Field)
    requires CleanName(f.name) && CleanValue(f.value)
    ensures MailHeader.Clean(f)
  {
  }

  lemma {:induction false} GetAt(fs: seq<MailHeader.Field>, k: nat, name: Bytes)
    requires k < |fs| && EqualFold(fs[k].name, name)
    requires forall i :: 0 <= i < k ==> !EqualFold(fs[i].name, name)
    ensures MailHeader.Get(fs, name) == fs[k].value
  {
    if k > 0 { GetAt(fs[1..], k - 1, name); }
  }

  lemma AddressFields(p: Params, mid: Bytes, date: Bytes)
    ensures var fs := HeaderFields(p, mid, date);
            && MailHeader.Get(fs, "From") == p.from
            && MailHeader.Get(fs, "To") == p.to
            && MailHeader.Get(fs, "Message-ID") == mid
  {
    hide MailHeader.Get;
    var fs := HeaderFields(p, mid, date);
    GetAt(fs, 0, "From");
    GetAt(fs, 1, "To");
    GetAt(fs, 3, "Message-ID");
  }

  lemma ContentFields(p: Params, mid: Bytes, date: Bytes)
    ensures var fs := HeaderFields(p, mid, date);
            && MailHeader.Get(fs, "Content-Type") == OCTET_STREAM
            && MailHeader.Get(fs, "Content-Transfer-Encoding") == "base64"
  {
    hide MailHeader.Get;
    var fs := HeaderFields(p, mid, date);
    assert Lower(fs[4].name[0]) == 'm';
    GetAt(fs, 5, "Content-Type");
    GetAt(fs, 6, "Content-Transfer-Encoding");
  }

  lemma FieldsByName(p: Params, mid: Bytes, date: Bytes)
    ensures var fs := HeaderFields(p, mid, date);
            && MailHeader.Get(fs, "From") == p.from
            && MailHeader.Get(fs, "To") == p.to
            && MailHeader.Get(fs, "Message-ID") == mid
            && MailHeader.Get(fs, "Content-Type") == OCTET_STREAM
            && MailHeader.Get(fs, "Content-Transfer-Encoding") == "base64"
            && MailHeader.Get(fs, Marker.MARKER) == Marker.ONE
  {
    hide MailHeader.Get;
    AddressFields(p, mid, date);
    ContentFields(p, mid, date);
    GetAt(HeaderFields(p, mid, date), 7, Marker.MARKER);
  }

  lemma Base64Name()
    ensures LowerAll(TrimSpace("base64")) == "base64"
  {
  }

  /** The verdict on any message whose fields read like the encoder's. */
  lemma JudgeTransport(lib: Library, m: MailHeader.Message, from: Bytes, to: Bytes)
    requires lib.parseAddress(from).Some? && lib.parseAddress(to).Some?
    requires from != [] && to != []
    requires lib.parseMediaType(OCTET_STREAM) == Some(OCTET_STREAM)
    requires Header(m, "From") == from && Header(m, "To") == to
    requires Header(m, "Content-Type") == OCTET_STREAM && HasMarker(m)
    requires Header(m, "Content-Transfer-Encoding") == "base64"
    ensures CheckHeader(lib, m) == Accept(Bare(lib, from), Bare(lib, to))
    ensures var packet := Base64.Decode(Wrapping.Strip(m.body));
            CheckBody(lib, m, Bare(lib, from), Bare(lib, to)) ==
            if |m.body| > MAX_BODY || packet.None? || packet.value == [] then Broken
            else Valid(Decoded(Header(m, "Message-ID"), Bare(lib, from), Bare(lib, to), packet.value))
  {
    hide MailHeader.Get, Base64.Decode, Wrapping.Strip;
    Base64Name();
  }

  /** A message with the encoder's header and any body at all: only the size and the base64
      text of the body decide. */
  lemma DecodeComposed(lib: Library, p: Params, uuid: Bytes, date: Bytes, body: Bytes)
    requires CleanRequest(lib, p, uuid, date)
    ensures var mid := MessageId(lib, p.from, uuid);
            var packet := Base64.Decode(Wrapping.Strip(body));
            Decode(lib, Compose(p, mid, date, body)) ==
            if |body| > MAX_BODY || packet.None? || packet.value == [] then Broken
            else Valid(Decoded(mid, Bare(lib, p.from), Bare(lib, p.to), packet.value))
  {
    hide MessageId, HeaderFields, CheckHeader, CheckBody, Base64.Decode, Wrapping.Strip;
    hide MailHeader.ReadFields, MailHeader.WriteFields, MailHeader.Get;
    var mid := MessageId(lib, p.from, uuid);
    var fs := HeaderFields(p, mid, date);
    CleanMessageId(lib, p, uuid, date);
    CleanFields(p, mid, date);
    MailHeader.ReadWritten(fs, body);
    FieldsByName(p, mid, date);
    var m := MailHeader.Message(fs, body);
    var raw := Compose(p, mid, date, body);
    assert |raw| >= |CRLF|;
    assert MailHeader.Read(raw) == Some(m);
    JudgeTransport(lib, m, p.from, p.to);
  }

  lemma EncodedIsText(packet: Bytes)
    ensures Wrapping.Strip(Wrapping.Wrap(Base64.Encode(packet))) == Base64.Encode(packet)
  {
    Wrapping.StripWrap(Base64.Encode(packet));
  }

  /** Decoding undoes encoding exactly for the packets within the size bound, up to display
      names; a larger packet comes back as ours but broken, never as somebody else's mail. */
  lemma RoundTrip(lib: Library, p: Params, uuid: Bytes, date: Bytes)
    requires CleanRequest(lib, p, uuid, date) && p.packet != []
    ensures var mid := MessageId(lib, p.from, uuid);
            Decode(lib, Enveloped(p, mid, date)) ==
            if |p.packet| <= MAX_PACKET then Valid(Decoded(mid, Bare(lib, p.from), Bare(lib, p.to), p.packet)) else Broken
  {
    var body := Wrapping.Wrap(Base64.Encode(p.packet));
    DecodeComposed(lib, p, uuid, date, body);
    EncodedIsText(p.packet);
    Base64.DecodeEncode(p.packet);
    Wrapping.FitsIffWithinCapacity(p.packet, MAX_BODY);
  }

  lemma MaxPacketValue()
    ensures MAX_PACKET == 766266
  {
  }

  /** Folding characters that mail systems add to a body, or take from it, do not reach the
      packet as long as the body stays within its limit. */
  lemma RewrappedRoundTrip(lib: Library, p: Params, uuid: Bytes, date: Bytes, edits: seq<Wrapping.Edit>)
    requires CleanRequest(lib, p, uuid, date) && p.packet != []
    ensures var mid := MessageId(lib, p.from, uuid);
            var body := Wrapping.ApplyAll(Wrapping.Wrap(Base64.Encode(p.packet)), edits);
            Decode(lib, Compose(p, mid, date, body)) ==
            if |body| <= MAX_BODY then Valid(Decoded(mid, Bare(lib, p.from), Bare(lib, p.to), p.packet)) else Broken
  {
    var wrapped := Wrapping.Wrap(Base64.Encode(p.packet));
    DecodeComposed(lib, p, uuid, date, Wrapping.ApplyAll(wrapped, edits));
    Wrapping.EditsKeepText(wrapped, edits);
    EncodedIsText(p.packet);
    Base64.DecodeEncode(p.packet);
  }

  /* ---- Classification ---- */

  /** Does a message carry the transport marker: in its header if the mail reader accepts it,
      in its raw text if not? */
  ghost predicate CarriesMarker(raw: Bytes) {
    match MailHeader.Read(raw)
    case Some(m) => HasMarker(m)
    case None => Marker.Marked(raw)
  }

  /** Mail is "not ours" exactly when it lacks the marker: no defect of the content type, the
      addresses, the encoding or the body can turn a marked message into somebody else's. */
  lemma NotTransportIffUnmarked(lib: Library, raw: Bytes)
    ensures Decode(lib, raw) == NotTransport <==> !CarriesMarker(raw)
  {
    Marker.ScanIsExact(raw);
    hide Marker.Marked, Marker.HasTransportMarker, MailHeader.Read, MailHeader.Get, DecodeBody;
  }

  lemma NamedAs(s: Bytes, name: Bytes)
    requires LowerAll(name) == name
    ensures LowerAll(s) == name <==> EqualFold(s, name)
  {
    if EqualFold(s, name) {
      assert forall i :: 0 <= i < |s| ==> LowerAll(s)[i] == LowerAll(name)[i];
    }
  }

  lemma EncodingNames()
    ensures LowerAll("base64") == "base64" && LowerAll("quoted-printable") == "quoted-printable"
    ensures LowerAll("7bit") == "7bit" && LowerAll("8bit") == "8bit" && LowerAll("binary") == "binary"
  {
  }

  /** The body carries the packet: under the encoding named, whatever white space is around the
      name and whatever its letter case. */
  ghost predicate Carries(lib: Library, body: Bytes, cte: Bytes, packet: Bytes) {
    var name := TrimSpace(cte);
    || (EqualFold(name, "base64") && Base64.Decode(Wrapping.Strip(body)) == Some(packet))
    || (EqualFold(name, "quoted-printable") && lib.unquote(body) == Some(packet))
    || ((EqualFold(name, "7bit") || EqualFold(name, "8bit") || EqualFold(name, "binary") || name == []) && packet == body)
  }

  lemma CarriesIff(lib: Library, body: Bytes, cte: Bytes, packet: Bytes)
    ensures DecodeBody(lib, body, cte) == Some(packet) <==> Carries(lib, body, cte, packet)
  {
    hide LowerAll, TrimSpace, EqualFold, Base64.Decode, Wrapping.Strip;
    var name := TrimSpace(cte);
    EncodingNames();
    NamedAs(name, "base64");
    NamedAs(name, "quoted-printable");
    NamedAs(name, "7bit");
    NamedAs(name, "8bit");
    NamedAs(name, "binary");
    assert LowerAll(name) == "" <==> name == [];
  }

  /** A transport message in good order. */
  ghost predicate WellMade(lib: Library, m: MailHeader.Message, d: Decoded) {
    && Header(m, Marker.MARKER) == "1"
    && Header(m, "Content-Type") != [] && lib.parseMediaType(Header(m, "Content-Type")) == Some("application/octet-stream")
    && Header(m, "From") != [] && lib.parseAddress(Header(m, "From")) == Some(d.from)
    && Header(m, "To") != [] && lib.parseAddress(Header(m, "To")) == Some(d.to)
    && Header(m, "Message-ID") == d.messageId
    && |m.body| <= MAX_BODY && d.packet != [] && Carries(lib, m.body, Header(m, "Content-Transfer-Encoding"), d.packet)
  }

  /** Decoding succeeds exactly for the messages in good order, with what they say. */
  lemma ValidIff(lib: Library, raw: Bytes, d: Decoded)
    ensures Decode(lib, raw) == Valid(d) <==>
            MailHeader.Read(raw).Some? && WellMade(lib, MailHeader.Read(raw).value, d)
  {
    hide MailHeader.Read, MailHeader.Get, DecodeBody, Carries, Marker.HasTransportMarker;
    if MailHeader.Read(raw).Some? {
      var m := MailHeader.Read(raw).value;
      CarriesIff(lib, m.body, Header(m, "Content-Transfer-Encoding"), d.packet);
    }
  }

  /* ---- The encoded text ---- */

  /** Lines of text, each ended by CR LF. */
  function Lines(ls: seq<Bytes>): Bytes {
    if ls == [] then [] else ls[0] + CRLF + Lines(ls[1..])
  }

  lemma {:induction false} FieldsAreLines(fs: seq<MailHeader.Field>, ls: seq<Bytes>)
    requires |fs| == |ls| && forall i :: 0 <= i < |fs| ==> MailHeader.WriteField(fs[i]) == ls[i] + CRLF
    ensures MailHeader.WriteFields(fs) + CRLF == Lines(ls + [[]])
  {
    hide MailHeader.WriteField;
    if fs == [] {
      var last: seq<Bytes> := [[]];
      assert ls + [[]] == last && last[1..] == [] && Lines([]) == [];
      assert Lines(last) == [] + CRLF + [];
    } else {
      FieldsAreLines(fs[1..], ls[1..]);
      assert (ls + [[]])[1..] == ls[1..] + [[]];
    }
  }

  lemma NamesAndValues()
    ensures "MIME-Version" + [':', ' '] + "1.0" == VERSION_LINE
    ensures "Content-Type" + [':', ' '] + OCTET_STREAM == TYPE_LINE
  {
  }

  lemma MoreNamesAndValues()
    ensures "Content-Transfer-Encoding" + [':', ' '] + "base64" == ENCODING_LINE
    ensures Marker.MARKER + [':', ' '] + Marker.ONE == TRANSPORT_LINE
  {
  }

  lemma NamesAndBlanks()
    ensures "From" + [':', ' '] == "From: " && "To" + [':', ' '] == "To: "
    ensures "Date" + [':', ' '] == "Date: " && "Message-ID" + [':', ' '] == "Message-ID: "
  {
  }

  /** The header of an encoded message, line by line. */
  function HeaderLines(p: Params, mid: Bytes, date: Bytes): (ls: seq<Bytes>)
    ensures |ls| == 8
  {
    [ "From: " + p.from,
      "To: " + p.to,
      "Date: " + date,
      "Message-ID: " + mid,
      VERSION_LINE, TYPE_LINE, ENCODING_LINE, TRANSPORT_LINE ]
  }

  const VERSION_LINE: Bytes := "MIME-Version: 1.0"
  const TYPE_LINE: Bytes := "Content-Type: application/octet-stream"
  const ENCODING_LINE: Bytes := "Content-Transfer-Encoding: base64"
  const TRANSPORT_LINE: Bytes := "X-RNS-Transport: 1"

  lemma FieldIsLine(p: Params, mid: Bytes, date: Bytes, i: nat)
    requires i < 8
    ensures MailHeader.WriteField(HeaderFields(p, mid, date)[i]) == HeaderLines(p, mid, date)[i] + CRLF
  {
    NamesAndValues();
    MoreNamesAndValues();
    NamesAndBlanks();
  }

  /** An encoded message is its header lines in order, the empty line and the body. */
  lemma EncodedText(p: Params, mid: Bytes, date: Bytes)
    ensures Enveloped(p, mid, date) == Lines(HeaderLines(p, mid, date) + [[]]) + Wrapping.Wrap(Base64.Encode(p.packet))
  {
    hide Wrapping.Wrap, Base64.Encode, Lines, MailHeader.WriteFields, MailHeader.WriteField, HeaderLines, HeaderFields;
    forall i | 0 <= i < 8 ensures MailHeader.WriteField(HeaderFields(p, mid, date)[i]) == HeaderLines(p, mid, date)[i] + CRLF {
      FieldIsLine(p, mid, date, i);
    }
    FieldsAreLines(HeaderFields(p, mid, date), HeaderLines(p, mid, date));
  }

  /** The message id: the identifier at the domain of the bare sender, or at a stock domain if
      the sender has none. */
  lemma MessageIdForm(lib: Library, from: Bytes, uuid: Bytes, local: Bytes, domain: Bytes)
    requires '@' !in domain
    ensures Bare(lib, from) == local + ['@'] + domain ==> MessageId(lib, from, uuid) == "<" + uuid + "@" + domain + ">"
    ensures '@' !in Bare(lib, from) ==> MessageId(lib, from, uuid) == "<" + uuid + "@" + "rns-transport" + ">"
    ensures lib.parseAddress(from).Some? ==> Bare(lib, from) == lib.parseAddress(from).value
    ensures lib.parseAddress(from).None? ==> Bare(lib, from) == from
  {
    var bare, n := Bare(lib, from), |local|;
    if bare == local + ['@'] + domain {
      assert bare[n] == '@' && forall k :: n < k < |bare| ==> bare[k] == domain[k - n - 1];
      assert LastIndex(bare, '@') == Some(n);
      assert bare[n + 1..] == domain;
    }
  }
}
