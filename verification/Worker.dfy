/** One fetch of the inbound worker: the replies of the server through the handler, then the
    checkpoint, then cleanup. */
module Worker {
  import opened Octets
  import opened Checkpoint
  import opened Inbound
  import Literal
  import Mailbox

  /* ---- The server's replies ---- */

  /** A literal as it comes off the wire. */
  datatype Wire = Wire(data: Bytes, broken: bool)
  datatype Item = UidItem(uid: Uid) | BodyItem(literal: Option<Wire>) | OtherItem
  /** One FETCH reply, and the surroundings of the handler call it may lead to. */
  datatype Reply = Reply(items: seq<Item>, env: Env)

  /** What the item loop makes of a reply: the last UID and the last body that was not NIL. */
  datatype ItemsRead = ItemsRead(uid: Uid, raw: Option<Bytes>, failed: bool)

  function ReadItems(items: seq<Item>, uid: Uid, raw: Option<Bytes>): ItemsRead {
    if items == [] then ItemsRead(uid, raw, false)
    else
      match items[0]
      case UidItem(u) => ReadItems(items[1..], u, raw)
      case OtherItem => ReadItems(items[1..], uid, raw)
      case BodyItem(None) => ReadItems(items[1..], uid, raw)
      case BodyItem(Some(w)) =>
        if w.broken && |w.data| <= Literal.MAX_LITERAL then ItemsRead(uid, raw, true)
        else ReadItems(items[1..], uid, Some(Literal.Truncate(w.data, Literal.MAX_LITERAL)))
  }

  function ReadReply(r: Reply): ItemsRead { ReadItems(r.items, 0, None) }

  /** A body whose literal breaks off before the limit is reached. */
  predicate BreaksOff(i: Item) {
    i.BodyItem? && i.literal.Some? && i.literal.value.broken && |i.literal.value.data| <= Literal.MAX_LITERAL
  }

  predicate HasBody(i: Item) { i.BodyItem? && i.literal.Some? }

  /** An item that the loop passes over: neither a UID nor a body that is not NIL. */
  predicate IsNoise(i: Item) { i.OtherItem? || i == BodyItem(None) }

  /** The UID of the last UID item, or the one there was before. */
  ghost predicate IsLastUid(items: seq<Item>, before: Uid, uid: Uid) {
    || (uid == before && forall k :: 0 <= k < |items| ==> !items[k].UidItem?)
    || exists k :: 0 <= k < |items| && items[k] == UidItem(uid) && forall j :: k < j < |items| ==> !items[j].UidItem?
  }

  /** The last body that is not NIL, cut at the limit, or the one there was before. */
  ghost predicate IsLastBody(items: seq<Item>, before: Option<Bytes>, raw: Option<Bytes>) {
    || (raw == before && forall k :: 0 <= k < |items| ==> !HasBody(items[k]))
    || exists k :: 0 <= k < |items| && HasBody(items[k])
                   && raw == Some(Literal.Truncate(items[k].literal.value.data, Literal.MAX_LITERAL))
                   && forall j :: k < j < |items| ==> !HasBody(items[j])
  }

  /** What is read from any list of items, in any order: it fails exactly if a literal breaks
      off, and otherwise gives the last UID and the last body. */
  lemma {:induction false} ItemsMeaning(items: seq<Item>, uid: Uid, raw: Option<Bytes>)
    ensures var r := ReadItems(items, uid, raw);
            && (r.failed <==> exists k :: 0 <= k < |items| && BreaksOff(items[k]))
            && (!r.failed ==> IsLastUid(items, uid, r.uid) && IsLastBody(items, raw, r.raw))
  {
    if items != [] {
      var i, rest := items[0], items[1..];
      var uid' := if i.UidItem? then i.uid else uid;
      var raw' := if HasBody(i) then Some(Literal.Truncate(i.literal.value.data, Literal.MAX_LITERAL)) else raw;
      ItemsMeaning(rest, uid', raw');
      assert forall k :: 0 <= k < |rest| ==> items[k + 1] == rest[k];
      if !BreaksOff(i) {
        assert ReadItems(items, uid, raw) == ReadItems(rest, uid', raw');
        UidsFrom(items, uid, ReadItems(rest, uid', raw').uid);
        BodiesFrom(items, raw, ReadItems(rest, uid', raw').raw);
        if k :| 0 <= k < |items| && BreaksOff(items[k]) { assert BreaksOff(rest[k - 1]); }
        if k :| 0 <= k < |rest| && BreaksOff(rest[k]) { assert BreaksOff(items[k + 1]); }
      }
    }
  }

  lemma UidsFrom(items: seq<Item>, before: Uid, uid: Uid)
    requires items != []
    ensures IsLastUid(items[1..], if items[0].UidItem? then items[0].uid else before, uid) ==> IsLastUid(items, before, uid)
  {
    var rest := items[1..];
    if k :| 0 <= k < |rest| && rest[k] == UidItem(uid) && forall j :: k < j < |rest| ==> !rest[j].UidItem? {
      assert items[k + 1] == UidItem(uid);
      assert forall j :: k + 1 < j < |items| ==> items[j] == rest[j - 1];
    } else if IsLastUid(rest, if items[0].UidItem? then items[0].uid else before, uid) {
      assert forall j :: 0 < j < |items| ==> items[j] == rest[j - 1];
      if items[0].UidItem? { assert items[0] == UidItem(uid); }
    }
  }

  lemma BodiesFrom(items: seq<Item>, before: Option<Bytes>, raw: Option<Bytes>)
    requires items != []
    ensures var first := if HasBody(items[0])
                         then Some(Literal.Truncate(items[0].literal.value.data, Literal.MAX_LITERAL)) else before;
            IsLastBody(items[1..], first, raw) ==> IsLastBody(items, before, raw)
  {
    var rest := items[1..];
    assert forall j :: 0 < j < |items| ==> items[j] == rest[j - 1];
    if k :| 0 <= k < |rest| && HasBody(rest[k]) && raw == Some(Literal.Truncate(rest[k].literal.value.data, Literal.MAX_LITERAL))
            && forall j :: k < j < |rest| ==> !HasBody(rest[j]) {
      assert HasBody(items[k + 1]);
    }
  }

  /** Items of other kinds and NIL bodies change nothing, wherever they stand. */
  lemma {:induction false} NoiseIsPassedOver(a: seq<Item>, i: Item, b: seq<Item>, uid: Uid, raw: Option<Bytes>)
    requires IsNoise(i)
    ensures ReadItems(a + [i] + b, uid, raw) == ReadItems(a + b, uid, raw)
  {
    if a == [] {
      assert (a + [i] + b)[1..] == b && a + b == b;
    } else {
      var t := a[1..];
      assert (a + [i] + b)[1..] == t + [i] + b && (a + b)[1..] == t + b;
      assert (a + [i] + b)[0] == a[0] && (a + b)[0] == a[0];
      var uid' := if a[0].UidItem? then a[0].uid else uid;
      var raw' := if HasBody(a[0]) then Some(Literal.Truncate(a[0].literal.value.data, Literal.MAX_LITERAL)) else raw;
      NoiseIsPassedOver(t, i, b, uid', raw');
    }
  }

  datatype Fetched = Fetched(tally: Tally, accepted: seq<Bytes>, err: bool)

  /** What one handler call puts into the pipe. */
  function Packets(h: Handled): seq<Bytes> {
    match h.accepted case Some(p) => [p] case None => []
  }

  /** The handler folded over the replies: stale and bodiless ones are passed over, and the
      first error ends the fetch. */
  function Deliver(cfg: Config, lastUid: Uid, replies: seq<Reply>, t: Tally): Fetched {
    if replies == [] then Fetched(t, [], false)
    else
      var it := ReadReply(replies[0]);
      if it.failed then Fetched(t, [], true)
      else if it.uid <= lastUid || it.raw.None? then Deliver(cfg, lastUid, replies[1..], t)
      else
        var h := Handle(KindOf(cfg, it.raw.value), t, it.uid, replies[0].env);
        if h.err then Fetched(h.tally, Packets(h), true)
        else
          var f := Deliver(cfg, lastUid, replies[1..], h.tally);
          f.(accepted := Packets(h) + f.accepted)
  }

  function FetchResult(cfg: Config, lastUid: Uid, replies: seq<Reply>, closeOk: bool): Fetched {
    var f := Deliver(cfg, lastUid, replies, EMPTY);
    f.(err := f.err || !closeOk)
  }

  /* ---- The objects of one fetch ---- */

  /** The packet pipe, which accepts a packet once when it answers without an error. */
  class Pipe {
    var accepted: seq<Bytes>

    constructor ()
      ensures accepted == []
    {
      accepted := [];
    }

    method Inject(packet: Bytes, answer: bool) returns (ok: bool)
      modifies this
      ensures ok == answer
      ensures accepted == old(accepted) + if ok then [packet] else []
    {
      if answer { accepted := accepted + [packet]; }
      return answer;
    }
  }

  /** The variables that the fetch closure captures, and the closure. */
  class FetchPass {
    const cfg: Config
    const pipe: Pipe
    var processedUids: seq<Uid>
    var skippedUids: seq<Uid>
    var failedUid: Uid
    var decodeFailedUid: Uid

    constructor (cfg: Config, pipe: Pipe)
      ensures this.cfg == cfg && this.pipe == pipe && Tally() == EMPTY
    {
      this.cfg, this.pipe := cfg, pipe;
      processedUids, skippedUids, failedUid, decodeFailedUid := [], [], 0, 0;
    }

    function Tally(): Tally
      reads this
    {
      Inbound.Tally(processedUids, skippedUids, failedUid, decodeFailedUid)
    }

    method OnMessage(uid: Uid, raw: Bytes, env: Env) returns (err: bool)
      modifies this, pipe
      ensures var h := Handle(KindOf(cfg, raw), old(Tally()), uid, env);
              && Tally() == h.tally && err == h.err
              && pipe.accepted == old(pipe.accepted) + Packets(h)
    {
      hide KindOf;
      if env.cancelled { return true; }
      match KindOf(cfg, raw) {
        case NotOurs =>
          skippedUids := skippedUids + [uid];
          return false;
        case Broken =>
          if decodeFailedUid == 0 || uid < decodeFailedUid { decodeFailedUid := uid; }
          return false;
        case Ours(packet) =>
          var ok := pipe.Inject(packet, env.injectOk);
          if !ok {
            failedUid := uid;
            return true;
          }
          processedUids := processedUids + [uid];
          return false;
      }
    }
  }

  /** The item loop of the client, over one reply. */
  method ScanItems(items: seq<Item>) returns (uid: Uid, raw: Option<Bytes>, failed: bool)
    ensures ItemsRead(uid, raw, failed) == ReadItems(items, 0, None)
  {
    uid, raw, failed := 0, None, false;
    var i := 0;
    while i < |items|
      invariant 0 <= i <= |items| && !failed
      invariant ReadItems(items, 0, None) == ReadItems(items[i..], uid, raw)
    {
      assert items[i..][0] == items[i] && items[i..][1..] == items[i + 1..];
      match items[i] {
        case UidItem(u) => uid := u;
        case OtherItem =>
        case BodyItem(None) =>
        case BodyItem(Some(w)) =>
          var source := new Literal.Source(w.data, w.broken);
          var buf, oversized, ok := Literal.ReadLiteral(source, Literal.MAX_LITERAL);
          if !ok {
            failed := true;
            return;
          }
          raw := Some(buf);
      }
      i := i + 1;
    }
  }

  /** The fold of the handler, one reply at a time. */
  lemma DeliverOne(cfg: Config, lastUid: Uid, replies: seq<Reply>, t: Tally)
    requires replies != []
    ensures var it, rest, f := ReadReply(replies[0]), replies[1..], Deliver(cfg, lastUid, replies, t);
            if it.failed then f == Fetched(t, [], true)
            else if it.uid <= lastUid || it.raw.None? then f == Deliver(cfg, lastUid, rest, t)
            else
              var h := Handle(KindOf(cfg, it.raw.value), t, it.uid, replies[0].env);
              var g := Deliver(cfg, lastUid, rest, h.tally);
              if h.err then f == Fetched(h.tally, Packets(h), true)
              else f == g.(accepted := Packets(h) + g.accepted)
  {
    hide KindOf, Handle, ReadReply;
  }

  /** The fetch loop of the client. */
  method FetchSince(lastUid: Uid, replies: seq<Reply>, closeOk: bool, pass: FetchPass) returns (err: bool)
    requires pass.Tally() == EMPTY
    modifies pass, pass.pipe
    ensures var f := FetchResult(pass.cfg, lastUid, replies, closeOk);
            && pass.Tally() == f.tally && err == f.err
            && pass.pipe.accepted == old(pass.pipe.accepted) + f.accepted
  {
    hide KindOf, Handle, Deliver, ReadItems, FetchPass.Tally;
    ghost var whole := Deliver(pass.cfg, lastUid, replies, EMPTY);
    ghost var done: seq<Bytes> := [];
    var n := 0;
    assert replies[0..] == replies;
    while n < |replies|
      invariant 0 <= n <= |replies|
      invariant pass.pipe.accepted == old(pass.pipe.accepted) + done
      invariant var f := Deliver(pass.cfg, lastUid, replies[n..], pass.Tally());
                whole == f.(accepted := done + f.accepted)
    {
      assert replies[n..][0] == replies[n] && replies[n..][1..] == replies[n + 1..];
      DeliverOne(pass.cfg, lastUid, replies[n..], pass.Tally());
      var uid, raw, failed := ScanItems(replies[n].items);
      if failed {
        return true;
      }
      if uid > lastUid && raw.Some? {
        ghost var h := Handle(KindOf(pass.cfg, raw.value), pass.Tally(), uid, replies[n].env);
        ghost var before, f := done, Deliver(pass.cfg, lastUid, replies[n + 1..], h.tally);
        var refused := pass.OnMessage(uid, raw.value, replies[n].env);
        done := done + Packets(h);
        if refused {
          return true;
        }
        assert before + (Packets(h) + f.accepted) == done + f.accepted;
      }
      n := n + 1;
    }
    assert replies[n..] == [];
    NoneLeft(pass.cfg, lastUid, pass.Tally());
    assert whole.accepted == done + [];
    return !closeOk;
  }

  lemma NoneLeft(cfg: Config, lastUid: Uid, t: Tally)
    ensures Deliver(cfg, lastUid, [], t) == Fetched(t, [], false)
  {
  }

  /* ---- A whole fetch ---- */

  /** Does this fetch raise the checkpoint? */
  predicate Raises(lastUid: Uid, f: Fetched) {
    !Suppressed(f.tally, f.err) && SafeUid(lastUid, f.tally) > lastUid
  }

  /** Fetch, judge, persist, and only then clean up. */
  method FetchAndProcess(cfg: Config, mode: Mailbox.Mode, caps: Mailbox.Caps, lastUid: Uid, validity: Uid,
                         replies: seq<Reply>, closeOk: bool, fault: Fault, answers: Mailbox.Answers,
                         repo: JsonRepo, server: Mailbox.Server, pipe: Pipe)
    returns (newUid: Uid, err: bool)
    modifies repo, server, pipe
    ensures var f := FetchResult(cfg, lastUid, replies, closeOk);
            var saved := Raises(lastUid, f) && fault == Fine;
            var safe := SafeUid(lastUid, f.tally);
            && err == f.err
            && pipe.accepted == old(pipe.accepted) + f.accepted
            && newUid == (if saved then safe else lastUid)
            && repo.file == (if saved then Advanced(old(repo.file), cfg.folder, validity, safe) else old(repo.file))
            && (!saved || err || CleanupUids(f.tally, safe) == [] || mode == Mailbox.KeepMail ==>
                  server.box == old(server.box) && server.archive == old(server.archive))
            && Mailbox.OnlyTouches(old(server.box), server.box, Mailbox.UidSet(CleanupUids(f.tally, safe)))
    // The cleanup frame, in terms of the outcome alone.
    ensures var f := FetchResult(cfg, lastUid, replies, closeOk);
            forall u :: u in old(server.box) && (u !in server.box || server.box[u] != old(server.box)[u]) ==>
                          u in f.tally.processed && u <= Lookup(repo.file, cfg.folder, validity)
    // What cleanup does, for every answer of the server; and when every answer is Done.
    ensures var f := FetchResult(cfg, lastUid, replies, closeOk);
            Raises(lastUid, f) && fault == Fine && !err ==>
              var uids := CleanupUids(f.tally, newUid);
              && server.box == Mailbox.CleanedBox(old(server.box), caps, mode, uids, answers)
              && server.archive == old(server.archive) + Mailbox.CleanedMail(old(server.box), caps, mode, uids, answers)
    ensures var f := FetchResult(cfg, lastUid, replies, closeOk);
            Raises(lastUid, f) && fault == Fine && !err && mode != Mailbox.KeepMail
            && (caps.uidPlus || (mode == Mailbox.MoveMail && caps.move))
            && answers == Mailbox.Answers(Mailbox.Done, Mailbox.Done, Mailbox.Copied, Mailbox.Done) ==>
              var uids := CleanupUids(f.tally, newUid);
              && server.box == old(server.box) - Mailbox.UidSet(uids)
              && server.archive == old(server.archive) +
                 (if mode == Mailbox.MoveMail then Mailbox.Copies(old(server.box), uids, Mailbox.UidSet(uids)) else [])
    ensures (mode == Mailbox.DeleteMail ==> !caps.uidPlus) && (mode == Mailbox.MoveMail ==> !caps.uidPlus && !caps.move) ==>
              server.box == old(server.box) && server.archive == old(server.archive)
    ensures server.archive == old(server.archive)
            || exists uids, reach :: reach <= Mailbox.UidSet(uids)
                 && (forall u :: u in uids ==> u <= Lookup(repo.file, cfg.folder, validity)
                                               && u in FetchResult(cfg, lastUid, replies, closeOk).tally.processed)
                 && server.archive == old(server.archive) + Mailbox.Copies(old(server.box), uids, reach)
  {
    hide KindOf, Handle, Deliver, Watermark;
    var pass := new FetchPass(cfg, pipe);
    err := FetchSince(lastUid, replies, closeOk, pass);
    ghost var f := FetchResult(cfg, lastUid, replies, closeOk);
    if err && pass.failedUid == 0 {
      return lastUid, err;
    }
    var computedSafe := ComputeSafe(lastUid, pass.Tally());
    var checkpointOk := false;
    if computedSafe > lastUid {
      checkpointOk := repo.AdvanceCheckpoint(cfg.folder, validity, computedSafe, fault);
    }
    if !err && checkpointOk {
      var safeUids: seq<Uid> := [];
      var n := 0;
      while n < |pass.processedUids|
        invariant 0 <= n <= |pass.processedUids|
        invariant safeUids == Below(pass.processedUids[..n], computedSafe)
      {
        assert pass.processedUids[..n + 1][..n] == pass.processedUids[..n];
        if pass.processedUids[n] <= computedSafe {
          safeUids := safeUids + [pass.processedUids[n]];
        }
        n := n + 1;
      }
      assert pass.processedUids[..n] == pass.processedUids;
      assert safeUids == CleanupUids(f.tally, computedSafe);
      NothingToClean(server.box, caps, mode, answers);
      if |safeUids| > 0 {
        Mailbox.Cleanup(server, caps, mode, safeUids, answers);
      }
    }
    newUid := if checkpointOk then computedSafe else lastUid;
  }

  lemma NothingToClean(box: Mailbox.Box, caps: Mailbox.Caps, mode: Mailbox.Mode, a: Mailbox.Answers)
    ensures Mailbox.CleanedBox(box, caps, mode, [], a) == box && Mailbox.CleanedMail(box, caps, mode, [], a) == []
    ensures box - Mailbox.UidSet([]) == box && Mailbox.Copies(box, [], Mailbox.UidSet([])) == []
  {
  }

  /* ---- What a fetch without an error accounts for ---- */

  /** A reply that reaches the handler with this UID. */
  predicate Reaches(r: Reply, lastUid: Uid, u: Uid) {
    var it := ReadReply(r);
    !it.failed && it.uid == u && u > lastUid && it.raw.Some?
  }

  predicate Accounted(t: Tally, u: Uid) {
    u in t.processed || u in t.skipped || 0 < t.decodeFailed <= u
  }

  /** Without an error every reply with a body is accounted for: processed, skipped, or at or
      above the decode failure that holds the checkpoint back.  And nothing else is. */
  lemma {:induction false} FetchAccounts(cfg: Config, lastUid: Uid, replies: seq<Reply>, t: Tally, u: Uid)
    requires !Deliver(cfg, lastUid, replies, t).err
    ensures var f := Deliver(cfg, lastUid, replies, t);
            && (Accounted(t, u) || (exists r :: r in replies && Reaches(r, lastUid, u)) ==> Accounted(f.tally, u))
            && (u in f.tally.processed + f.tally.skipped ==>
                  u in t.processed + t.skipped || exists r :: r in replies && Reaches(r, lastUid, u))
  {
    hide KindOf;
    if replies != [] {
      var it := ReadReply(replies[0]);
      assert replies == [replies[0]] + replies[1..];
      var t' := if it.uid <= lastUid || it.raw.None? then t
                else Handle(KindOf(cfg, it.raw.value), t, it.uid, replies[0].env).tally;
      FetchAccounts(cfg, lastUid, replies[1..], t', u);
      if Reaches(replies[0], lastUid, u) {
        assert Accounted(t', u);
      }
    }
  }

  /* ---- A fetch as the tally of the messages it took ---- */

  predicate Hands(r: Reply, lastUid: Uid) {
    var it := ReadReply(r);
    !it.failed && it.uid > lastUid && it.raw.Some?
  }

  /** The messages that these replies hand to the handler. */
  function Mails(lastUid: Uid, replies: seq<Reply>): seq<Mail> {
    if replies == [] then [] else MailOf(lastUid, replies[0]) + Mails(lastUid, replies[1..])
  }

  function MailOf(lastUid: Uid, r: Reply): seq<Mail> {
    if Hands(r, lastUid) then [Mail(ReadReply(r).uid, ReadReply(r).raw.value)] else []
  }

  /** This reply ends the fetch: its literal breaks, the context is done, or the pipe refuses. */
  predicate Stops(cfg: Config, lastUid: Uid, r: Reply) {
    || ReadReply(r).failed
    || (Hands(r, lastUid) && (r.env.cancelled || (!r.env.injectOk && KindOf(cfg, ReadReply(r).raw.value).Ours?)))
  }

  /** The UID that a reply which ends the fetch leaves as failed; zero if the pipe was not asked. */
  function Refused(r: Reply): Uid { if ReadReply(r).failed || r.env.cancelled then 0 else ReadReply(r).uid }

  lemma TallyStep(cfg: Config, lastUid: Uid, r: Reply, prior: seq<Mail>)
    requires Hands(r, lastUid)
    ensures var m := Mail(ReadReply(r).uid, ReadReply(r).raw.value);
            var h := Handle(KindOf(cfg, m.raw), Tallied(cfg, prior), m.uid, r.env);
            if Stops(cfg, lastUid, r) then h == Handled(Tallied(cfg, prior).(failed := Refused(r)), None, true)
            else !h.err && h.tally == Tallied(cfg, prior + [m])
                 && Injected(cfg, prior + [m]) == Injected(cfg, prior) + Packets(h)
  {
    var m := Mail(ReadReply(r).uid, ReadReply(r).raw.value);
    assert (prior + [m])[..|prior + [m]| - 1] == prior;
    assert Injected(cfg, prior) + [] == Injected(cfg, prior);
    TalliedTaken(cfg, prior);
    hide KindOf, ReadReply;
  }

  lemma {:induction false} MailsConcat(lastUid: Uid, a: seq<Reply>, b: seq<Reply>)
    ensures Mails(lastUid, a + b) == Mails(lastUid, a) + Mails(lastUid, b)
  {
    hide MailOf;
    if a == [] {
      assert a + b == b;
    } else {
      assert Mails(lastUid, a) == MailOf(lastUid, a[0]) + Mails(lastUid, a[1..]);
      assert Mails(lastUid, a + b) == MailOf(lastUid, a[0]) + Mails(lastUid, a[1..] + b) by {
        assert (a + b)[1..] == a[1..] + b;
      }
      MailsConcat(lastUid, a[1..], b);
      hide Mails;
    }
  }

  lemma MailsOfOne(lastUid: Uid, r: Reply)
    ensures Mails(lastUid, [r]) == MailOf(lastUid, r)
  {
    hide MailOf;
    assert [r][1..] == [] && Mails(lastUid, []) == [];
  }

  lemma NoMails(lastUid: Uid)
    ensures Mails(lastUid, []) == []
  {
  }

  /** Every fetch, however it ends, from a tally of earlier messages. */
  lemma {:induction false} FetchFrom(cfg: Config, lastUid: Uid, replies: seq<Reply>, prior: seq<Mail>) returns (n: nat)
    ensures n <= |replies| && forall k :: 0 <= k < n ==> !Stops(cfg, lastUid, replies[k])
    ensures n < |replies| ==> Stops(cfg, lastUid, replies[n])
    ensures var f := Deliver(cfg, lastUid, replies, Tallied(cfg, prior));
            var mails := prior + Mails(lastUid, replies[..n]);
            && f.err == (n < |replies|)
            && f.tally == Tallied(cfg, mails).(failed := if f.err then Refused(replies[n]) else 0)
            && Injected(cfg, prior) + f.accepted == Injected(cfg, mails)
  {
    hide KindOf, ReadReply, Tallied, Injected, Mails;
    TalliedTaken(cfg, prior);
    n := 0;
    assert replies[..0] == [] && Mails(lastUid, []) == [] by { NoMails(lastUid); }
    assert prior + [] == prior && Injected(cfg, prior) + [] == Injected(cfg, prior);
    if replies != [] {
      var r, rest := replies[0], replies[1..];
      DeliverOne(cfg, lastUid, replies, Tallied(cfg, prior));
      hide Deliver;
      if Hands(r, lastUid) { TallyStep(cfg, lastUid, r, prior); }
      if !Stops(cfg, lastUid, r) {
        var head := Mails(lastUid, [r]);
        MailsOfOne(lastUid, r);
        var k := FetchFrom(cfg, lastUid, rest, prior + head);
        n := k + 1;
        assert replies[..n] == [r] + rest[..k];
        MailsConcat(lastUid, [r], rest[..k]);
        assert prior + Mails(lastUid, replies[..n]) == (prior + head) + Mails(lastUid, rest[..k]);
      }
    }
  }

  /** Every fetch, however it ends, is the tally of the messages handed over before the first
      reply that stops it, and that reply's refusal; the pipe got just the packets of those. */
  lemma FetchIsTally(cfg: Config, lastUid: Uid, replies: seq<Reply>) returns (n: nat)
    ensures n <= |replies| && forall k :: 0 <= k < n ==> !Stops(cfg, lastUid, replies[k])
    ensures n < |replies| ==> Stops(cfg, lastUid, replies[n])
    ensures var f := Deliver(cfg, lastUid, replies, EMPTY);
            var mails := Mails(lastUid, replies[..n]);
            && f.err == (n < |replies|)
            && f.tally == Tallied(cfg, mails).(failed := if f.err then Refused(replies[n]) else 0)
            && f.accepted == Injected(cfg, mails)
  {
    n := FetchFrom(cfg, lastUid, replies, []);
    hide Deliver, Stops;
    assert [] + Mails(lastUid, replies[..n]) == Mails(lastUid, replies[..n]);
    assert [] + Deliver(cfg, lastUid, replies, EMPTY).accepted == Deliver(cfg, lastUid, replies, EMPTY).accepted;
  }

  /** Taking one reply out of a fetch takes its message, if any, out of the messages. */
  lemma MailsWithout(lastUid: Uid, l: seq<Reply>, r: Reply, tail: seq<Reply>)
    ensures multiset(Mails(lastUid, l + [r] + tail)) == multiset(Mails(lastUid, l + tail)) + multiset(Mails(lastUid, [r]))
  {
    hide Mails;
    MailsConcat(lastUid, l + [r], tail);
    MailsConcat(lastUid, l, [r]);
    MailsConcat(lastUid, l, tail);
  }

  lemma {:induction false} MailsPermuted(lastUid: Uid, a: seq<Reply>, b: seq<Reply>)
    requires multiset(a) == multiset(b)
    ensures multiset(Mails(lastUid, a)) == multiset(Mails(lastUid, b))
    decreases |a|
  {
    hide Mails;
    if a == [] {
      assert |b| == |multiset(b)|;
    } else {
      var r, prior := a[|a| - 1], a[..|a| - 1];
      assert a == prior + [r] + [];
      assert r in multiset(b);
      var i :| 0 <= i < |b| && b[i] == r;
      var l, tail := b[..i], b[i + 1..];
      assert b == l + [r] + tail;
      WithoutOne(l, r, tail);
      WithoutOne(prior, r, []);
      assert prior + [] == prior;
      MailsPermuted(lastUid, prior, l + tail);
      MailsWithout(lastUid, l, r, tail);
      MailsWithout(lastUid, prior, r, []);
    }
  }

  lemma {:induction false} MailsAreNew(lastUid: Uid, replies: seq<Reply>)
    ensures forall m :: m in Mails(lastUid, replies) ==> m.uid > lastUid
  {
    hide ReadReply;
    if replies != [] { MailsAreNew(lastUid, replies[1..]); }
  }

  /** For a fetch that nothing stops, the new checkpoint, the UIDs cleaned up and the multiset
      of packets in the pipe are the same for every order of the server's replies. */
  lemma FetchOrderIndependence(cfg: Config, lastUid: Uid, a: seq<Reply>, b: seq<Reply>)
    requires multiset(a) == multiset(b) && forall r :: r in a ==> !Stops(cfg, lastUid, r)
    ensures var f, g := FetchResult(cfg, lastUid, a, true), FetchResult(cfg, lastUid, b, true);
            && !f.err && !g.err
            && SafeUid(lastUid, f.tally) == SafeUid(lastUid, g.tally)
            && (forall u :: u in CleanupUids(f.tally, SafeUid(lastUid, f.tally))
                       <==> u in CleanupUids(g.tally, SafeUid(lastUid, g.tally)))
            && multiset(f.accepted) == multiset(g.accepted)
  {
    hide KindOf, Deliver, Stops, SafeUid, Mails;
    forall r | r in b ensures !Stops(cfg, lastUid, r) {
      assert r in multiset(b);
    }
    var n := FetchIsTally(cfg, lastUid, a);
    var k := FetchIsTally(cfg, lastUid, b);
    assert a[..n] == a && b[..k] == b;
    var x, y := Mails(lastUid, a), Mails(lastUid, b);
    MailsPermuted(lastUid, a, b);
    MailsAreNew(lastUid, a);
    TalliedTaken(cfg, x);
    TalliedTaken(cfg, y);
    OrderIndependence(cfg, lastUid, x, y);
  }

  /* ---- Bodies ---- */

  /** No two replies name the same UID above lastUid. */
  ghost predicate DistinctUids(lastUid: Uid, replies: seq<Reply>) {
    forall r, q :: r in replies && q in replies && ReadReply(r).uid == ReadReply(q).uid > lastUid ==> r == q
  }

  /** Why every fetched message must have a body: of the replies that the watermark of a
      completed fetch passes, just those with a body were processed or skipped; one without a
      body is passed and leaves no trace. */
  lemma PassedIffBody(cfg: Config, lastUid: Uid, replies: seq<Reply>, r: Reply)
    requires var f := FetchResult(cfg, lastUid, replies, true);
             !f.err && DistinctUids(lastUid, replies) && r in replies
             && lastUid < ReadReply(r).uid <= SafeUid(lastUid, f.tally)
    ensures var t, u := FetchResult(cfg, lastUid, replies, true).tally, ReadReply(r).uid;
            && (u in t.processed + t.skipped <==> ReadReply(r).raw.Some?)
  {
    hide KindOf, Deliver, ReadReply, Watermark, Handle;
    var u := ReadReply(r).uid;
    var t := Deliver(cfg, lastUid, replies, EMPTY).tally;
    FetchAccounts(cfg, lastUid, replies, EMPTY, u);
    if ReadReply(r).raw.Some? {
      var n := FetchIsTally(cfg, lastUid, replies);
      assert !Stops(cfg, lastUid, r);
      assert Reaches(r, lastUid, u);
      var safe := SafeUid(lastUid, t);
      assert safe in t.processed + t.skipped && Allowed(safe, Ceiling(t));
    }
  }

  /** Such a fetch: message 5 has a NIL body, and the watermark passes it. */
  lemma NilBodyIsPassed(cfg: Config, raw: Bytes)
    requires |raw| <= Literal.MAX_LITERAL && KindOf(cfg, raw).Ours?
    ensures var quiet := Reply([UidItem(5), BodyItem(None)], Env(false, true));
            var sound := Reply([UidItem(6), BodyItem(Some(Wire(raw, false)))], Env(false, true));
            var f := FetchResult(cfg, 4, [quiet, sound], true);
            && !f.err && f.tally == Tally([6], [], 0, 0)
            && SafeUid(4, f.tally) == 6
  {
    hide KindOf;
    var quiet := Reply([UidItem(5), BodyItem(None)], Env(false, true));
    var sound := Reply([UidItem(6), BodyItem(Some(Wire(raw, false)))], Env(false, true));
    assert quiet.items[1..] == [BodyItem(None)] && quiet.items[1..][1..] == [];
    assert ReadReply(quiet) == ItemsRead(5, None, false);
    var body := BodyItem(Some(Wire(raw, false)));
    assert sound.items[1..] == [body] && sound.items[1..][1..] == [];
    assert ReadItems([body], 6, None) == ItemsRead(6, Some(raw), false);
    assert ReadReply(sound) == ItemsRead(6, Some(raw), false);
    assert [quiet, sound][1..] == [sound] && [sound][1..] == [];
    var t := Tally([6], [], 0, 0);
    var h := Handle(KindOf(cfg, raw), EMPTY, 6, Env(false, true));
    assert EMPTY.processed + [6] == [6];
    assert h.tally == t && h.accepted == Some(KindOf(cfg, raw).packet) && !h.err;
    assert Deliver(cfg, 4, [], t) == Fetched(t, [], false);
    var f := Deliver(cfg, 4, [sound], EMPTY);
    assert f.tally == t && !f.err;
    assert Deliver(cfg, 4, [quiet, sound], EMPTY) == f;
    assert t.processed + t.skipped == [6];
    assert Watermark(4, [6], 0) == 6;
  }
}
