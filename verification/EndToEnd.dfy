/** From the sender's packet to the receiver's verdict. */
module EndToEnd {
  import opened Octets
  import Checkpoint
  import Envelope
  import EnvelopeScan
  import Inbound
  import Literal
  import MailHeader
  import Marker
  import Protocol
  import Truncation
  import Worker

  /** The addresses that the receiver is configured to accept. */
  predicate Expected(cfg: Inbound.Config, from: Bytes, to: Bytes) {
    && (cfg.peer == [] || Inbound.CanonicalAddr(cfg.lib, from) == Inbound.CanonicalAddr(cfg.lib, cfg.peer))
    && (cfg.local == [] || Inbound.CanonicalAddr(cfg.lib, to) == Inbound.CanonicalAddr(cfg.lib, cfg.local))
  }

  function HeaderSize(p: Envelope.Params, mid: Bytes, date: Bytes): nat {
    |MailHeader.WriteFields(Envelope.HeaderFields(p, mid, date))| + |CRLF|
  }

  /** The header of an encoded message closes where it should, for both readers. */
  lemma EncodedHeaderCloses(p: Envelope.Params, mid: Bytes, date: Bytes)
    requires Envelope.CleanHeader(p, mid, date)
    ensures Marker.ScanEndsWithin(Envelope.Enveloped(p, mid, date), HeaderSize(p, mid, date))
  {
    hide EnvelopeScan.Solid, Envelope.HeaderFields;
    var h := EnvelopeScan.HeaderIsSolid(p, mid, date);
    var w := MailHeader.WriteFields(Envelope.HeaderFields(p, mid, date));
    var raw := Envelope.Enveloped(p, mid, date);
    var body := raw[|w| + 2..];
    assert raw == w + CRLF + body;
    var n := |h + EnvelopeScan.MARKER_LINE|;
    assert w[..n] == h + EnvelopeScan.MARKER_LINE && w[n..] == CRLF;
    assert raw[n..n + 4] == Marker.CRLF2;
    assert OccursAt(raw, Marker.CRLF2, n);
  }

  /** What the receiver makes of an encoded message: the packet itself if it is within the size
      bound and the addresses are the expected ones, somebody else's mail if they are not, and
      ours but broken if the packet is too large, whatever its size. */
  lemma SentIsReceived(cfg: Inbound.Config, p: Envelope.Params, uuid: Bytes, date: Bytes)
    requires Envelope.CleanRequest(cfg.lib, p, uuid, date) && p.packet != []
    requires HeaderSize(p, Envelope.MessageId(cfg.lib, p.from, uuid), date) <= Literal.MAX_HEADER
    ensures Protocol.KindAt(cfg, Envelope.Enveloped(p, Envelope.MessageId(cfg.lib, p.from, uuid), date)) ==
            if |p.packet| > Envelope.MAX_PACKET then Inbound.Broken
            else if Expected(cfg, Envelope.Bare(cfg.lib, p.from), Envelope.Bare(cfg.lib, p.to)) then Inbound.Ours(p.packet)
            else Inbound.NotOurs
  {
    hide Envelope.Decode, Envelope.Enveloped, Envelope.MessageId, Envelope.CleanRequest, HeaderSize;
    hide Inbound.CanonicalAddr, Envelope.Bare;
    var mid := Envelope.MessageId(cfg.lib, p.from, uuid);
    var raw := Envelope.Enveloped(p, mid, date);
    Envelope.CleanMessageId(cfg.lib, p, uuid, date);
    EncodedHeaderCloses(p, mid, date);
    HeaderCloses(raw, HeaderSize(p, mid, date));
    Truncation.TruncationInvisible(cfg.lib, raw);
    Envelope.RoundTrip(cfg.lib, p, uuid, date);
  }

  lemma HeaderCloses(raw: Bytes, n: nat)
    requires Marker.ScanEndsWithin(raw, n) && n <= Literal.MAX_HEADER
    ensures MailHeader.HasBlankLine(Literal.Truncate(raw, Literal.MAX_HEADER))
    ensures Marker.ScanEndsWithin(raw, Literal.MAX_LITERAL)
  {
    hide MailHeader.HasBlankLine;
    var k := if |raw| > Literal.MAX_HEADER then Literal.MAX_HEADER else |raw|;
    assert raw[..k] == Literal.Truncate(raw, Literal.MAX_HEADER);
    Marker.ScanEndClosesHeader(raw, k);
  }

  /** The class of any message at all.  Broken: it carries the marker and is not in good order.
      Ours: it is in good order, and from and to the expected addresses.  Not ours: it lacks
      the marker, or it is in good order for somebody else. */
  lemma ClassIff(cfg: Inbound.Config, raw: Bytes)
    ensures Inbound.KindOf(cfg, raw) == Inbound.Broken <==>
            Envelope.CarriesMarker(raw) && forall d :: !InGoodOrder(cfg, raw, d)
    ensures forall packet :: Inbound.KindOf(cfg, raw) == Inbound.Ours(packet) <==>
            exists d :: InGoodOrder(cfg, raw, d) && d.packet == packet && Expected(cfg, d.from, d.to)
    ensures Inbound.KindOf(cfg, raw) == Inbound.NotOurs <==>
            !Envelope.CarriesMarker(raw) || exists d :: InGoodOrder(cfg, raw, d) && !Expected(cfg, d.from, d.to)
  {
    hide Envelope.Decode, Envelope.CarriesMarker, Envelope.WellMade, Inbound.CanonicalAddr;
    Envelope.NotTransportIffUnmarked(cfg.lib, raw);
    forall d ensures Envelope.Decode(cfg.lib, raw) == Envelope.Valid(d) <==> InGoodOrder(cfg, raw, d) {
      Envelope.ValidIff(cfg.lib, raw, d);
    }
    hide InGoodOrder;
    if Envelope.Decode(cfg.lib, raw).Valid? {
      assert InGoodOrder(cfg, raw, Envelope.Decode(cfg.lib, raw).decoded);
    }
  }

  /** The reader accepts the message, and it is well made. */
  ghost predicate InGoodOrder(cfg: Inbound.Config, raw: Bytes, d: Envelope.Decoded) {
    MailHeader.Read(raw).Some? && Envelope.WellMade(cfg.lib, MailHeader.Read(raw).value, d)
  }

  /* ---- Ordinary mail ---- */

  lemma UnmarkedIsNotOurs(cfg: Inbound.Config, raw: Bytes)
    requires !Envelope.CarriesMarker(raw)
    ensures Inbound.KindOf(cfg, raw) == Inbound.NotOurs
  {
    hide Inbound.KindOf, Envelope.CarriesMarker, InGoodOrder;
    ClassIff(cfg, raw);
  }

  /** The reply hands over mail without the marker. */
  ghost predicate HandsUnmarked(r: Worker.Reply, lastUid: Checkpoint.Uid) {
    Worker.Hands(r, lastUid) && !Envelope.CarriesMarker(Worker.ReadReply(r).raw.value)
  }

  lemma {:induction false} MailsOfReplies(lastUid: Checkpoint.Uid, replies: seq<Worker.Reply>)
    ensures forall m :: m in Worker.Mails(lastUid, replies) <==>
                        exists r :: r in replies && Worker.Hands(r, lastUid) && Worker.MailOf(lastUid, r) == [m]
  {
    hide Worker.ReadReply;
    if replies != [] {
      assert replies == [replies[0]] + replies[1..];
      MailsOfReplies(lastUid, replies[1..]);
    }
  }

  lemma {:induction false} NothingToInject(cfg: Inbound.Config, mails: seq<Inbound.Mail>)
    requires forall m :: m in mails ==> Inbound.KindOf(cfg, m.raw).NotOurs?
    ensures Inbound.Injected(cfg, mails) == [] && Inbound.Tallied(cfg, mails).processed == []
    ensures Inbound.Tallied(cfg, mails).decodeFailed == 0
    decreases |mails|
  {
    hide Inbound.KindOf;
    if mails != [] { NothingToInject(cfg, mails[..|mails| - 1]); }
  }

  /** Ordinary mail never holds the checkpoint back: a completed fetch skips all of it, and a
      fetch of nothing but unmarked mail injects nothing and moves the watermark past it. */
  lemma UnmarkedIsPassed(cfg: Inbound.Config, lastUid: Checkpoint.Uid, replies: seq<Worker.Reply>)
    requires !Worker.FetchResult(cfg, lastUid, replies, true).err
    ensures var f := Worker.FetchResult(cfg, lastUid, replies, true);
            && (forall r :: r in replies && HandsUnmarked(r, lastUid) ==> Worker.ReadReply(r).uid in f.tally.skipped)
            && ((forall r :: r in replies && Worker.Hands(r, lastUid) ==> HandsUnmarked(r, lastUid)) ==>
                  && f.accepted == [] && f.tally.processed == [] && f.tally.decodeFailed == 0
                  && forall r :: r in replies && Worker.Hands(r, lastUid) ==>
                                   Worker.ReadReply(r).uid <= Inbound.SafeUid(lastUid, f.tally))
  {
    hide Inbound.KindOf, Envelope.CarriesMarker, Worker.Deliver, Worker.Mails, Worker.ReadReply, Worker.Stops;
    hide Inbound.Tallied, Inbound.Injected, Inbound.Watermark;
    var n := Worker.FetchIsTally(cfg, lastUid, replies);
    assert replies[..n] == replies;
    var mails := Worker.Mails(lastUid, replies);
    var t := Inbound.Tallied(cfg, mails);
    MailsOfReplies(lastUid, replies);
    Inbound.TalliedTaken(cfg, mails);
    forall r | r in replies && HandsUnmarked(r, lastUid) ensures Worker.ReadReply(r).uid in t.skipped {
      var m := Worker.MailOf(lastUid, r)[0];
      assert m in mails;
      UnmarkedIsNotOurs(cfg, m.raw);
    }
    if forall r :: r in replies && Worker.Hands(r, lastUid) ==> HandsUnmarked(r, lastUid) {
      forall m | m in mails ensures Inbound.KindOf(cfg, m.raw).NotOurs? {
        var r :| r in replies && Worker.Hands(r, lastUid) && Worker.MailOf(lastUid, r) == [m];
        assert HandsUnmarked(r, lastUid);
        UnmarkedIsNotOurs(cfg, m.raw);
      }
      NothingToInject(cfg, mails);
      forall r | r in replies && Worker.Hands(r, lastUid) ensures Worker.ReadReply(r).uid <= Inbound.SafeUid(lastUid, t) {
        assert HandsUnmarked(r, lastUid);
        assert Inbound.Allowed(Worker.ReadReply(r).uid, Inbound.Ceiling(t));
      }
    }
  }
}
