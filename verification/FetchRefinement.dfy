/** The worker's fetch method is a run of the protocol: same file, same mailbox, same packets,
    while the world goes on around it. */
module FetchRefinement {
  import opened Octets
  import opened Checkpoint
  import opened Inbound
  import Literal
  import Mailbox
  import Protocol
  import Worker

  /** A message handed to the handler, and the surroundings of the call. */
  datatype Delivery = Delivery(uid: Uid, raw: Bytes, env: Env)

  /** The handler folded over deliveries, until its first error. */
  function Fold(cfg: Config, ds: seq<Delivery>, t: Tally): Worker.Fetched {
    if ds == [] then Worker.Fetched(t, [], false)
    else
      var h := Handle(Protocol.KindAt(cfg, ds[0].raw), t, ds[0].uid, ds[0].env);
      if h.err then Worker.Fetched(h.tally, Worker.Packets(h), true)
      else
        var f := Fold(cfg, ds[1..], h.tally);
        f.(accepted := Worker.Packets(h) + f.accepted)
  }

  /* ---- The worker's side: what the replies hand over ---- */

  /** What the client hands over from these replies if the handler lets it: everything with a
      newer UID and a body, up to a literal that breaks. */
  function Handing(lastUid: Uid, replies: seq<Worker.Reply>): seq<Delivery> {
    if replies == [] || Worker.ReadReply(replies[0]).failed then []
    else
      var r := replies[0];
      (if Worker.Hands(r, lastUid) then [Delivery(Worker.ReadReply(r).uid, Worker.ReadReply(r).raw.value, r.env)] else [])
      + Handing(lastUid, replies[1..])
  }

  predicate Breaks(replies: seq<Worker.Reply>) { exists r :: r in replies && Worker.ReadReply(r).failed }

  /** The client read this message, cut to the size limit. */
  predicate IsRead(read: Delivery, d: Delivery) {
    read == d.(raw := Literal.Truncate(d.raw, Literal.MAX_LITERAL))
  }

  /** The replies hand over these messages, one for one and in order; they may hand over more
      only after the one that the handler refuses. */
  ghost predicate HandOver(cfg: Config, lastUid: Uid, replies: seq<Worker.Reply>, ds: seq<Delivery>, t: Tally) {
    var hs := Handing(lastUid, replies);
    && |ds| <= |hs| && (forall i :: 0 <= i < |ds| ==> IsRead(hs[i], ds[i]))
    && (|ds| < |hs| ==> Fold(cfg, ds, t).err)
  }

  lemma FoldHead(cfg: Config, d: Delivery, ds: seq<Delivery>, t: Tally)
    ensures var h := Handle(Protocol.KindAt(cfg, d.raw), t, d.uid, d.env);
            var f := Fold(cfg, ds, h.tally);
            Fold(cfg, [d] + ds, t) ==
            if h.err then Worker.Fetched(h.tally, Worker.Packets(h), true)
            else f.(accepted := Worker.Packets(h) + f.accepted)
  {
    hide Handle, Protocol.KindAt, Worker.Packets;
    assert ([d] + ds)[1..] == ds;
  }

  lemma BreaksHead(replies: seq<Worker.Reply>)
    requires replies != []
    ensures Breaks(replies) <==> Worker.ReadReply(replies[0]).failed || Breaks(replies[1..])
  {
    hide Worker.ReadReply;
    assert replies == [replies[0]] + replies[1..];
  }

  /** The fetch loop over any replies is the fold over what they hand over. */
  lemma {:induction false} DeliverIsFold(cfg: Config, lastUid: Uid, replies: seq<Worker.Reply>, ds: seq<Delivery>, t: Tally)
    requires HandOver(cfg, lastUid, replies, ds, t)
    ensures var f := Fold(cfg, ds, t);
            Worker.Deliver(cfg, lastUid, replies, t) == f.(err := f.err || Breaks(replies))
  {
    hide KindOf, Handle, Worker.ReadReply, Worker.Packets, Worker.Deliver, Breaks;
    if replies == [] {
      NoReplies(cfg, lastUid, t);
    } else {
      var r, rest := replies[0], replies[1..];
      Worker.DeliverOne(cfg, lastUid, replies, t);
      BreaksHead(replies);
      if !Worker.ReadReply(r).failed {
        var hs := Handing(lastUid, rest);
        if !Worker.Hands(r, lastUid) {
          assert Handing(lastUid, replies) == hs;
          DeliverIsFold(cfg, lastUid, rest, ds, t);
        } else if ds != [] {
          HeadIsHanded(cfg, lastUid, replies, ds, t);
          var d := ds[0];
          assert ds == [d] + ds[1..];
          FoldHead(cfg, d, ds[1..], t);
          var h := Handle(Protocol.KindAt(cfg, d.raw), t, d.uid, d.env);
          if !h.err { DeliverIsFold(cfg, lastUid, rest, ds[1..], h.tally); }
        }
      }
    }
  }

  lemma NoReplies(cfg: Config, lastUid: Uid, t: Tally)
    ensures Worker.Deliver(cfg, lastUid, [], t) == Worker.Fetched(t, [], false) && !Breaks([])
  {
  }

  lemma HeadIsHanded(cfg: Config, lastUid: Uid, replies: seq<Worker.Reply>, ds: seq<Delivery>, t: Tally)
    requires replies != [] && Worker.Hands(replies[0], lastUid) && ds != [] && HandOver(cfg, lastUid, replies, ds, t)
    ensures var d, it := ds[0], Worker.ReadReply(replies[0]);
            var h := Handle(Protocol.KindAt(cfg, d.raw), t, d.uid, d.env);
            && it.uid == d.uid && replies[0].env == d.env && KindOf(cfg, it.raw.value) == Protocol.KindAt(cfg, d.raw)
            && (!h.err ==> HandOver(cfg, lastUid, replies[1..], ds[1..], h.tally))
  {
    hide KindOf, Handle, Worker.ReadReply, Worker.Packets, Fold;
    var hs, d := Handing(lastUid, replies), ds[0];
    assert IsRead(hs[0], d);
    assert hs[1..] == Handing(lastUid, replies[1..]);
    assert ds == [d] + ds[1..];
    FoldHead(cfg, d, ds[1..], t);
    forall i | 0 <= i < |ds[1..]| ensures IsRead(hs[1..][i], ds[1..][i]) {
      assert IsRead(hs[i + 1], ds[i + 1]);
    }
  }

  /* ---- The protocol's side: steps of the fetch and of the world ---- */

  /** What may happen while a fetch runs, besides its own steps: mail arrives or is taken away,
      the running fetch takes it in, the file is damaged, the mailbox changes generation. */
  predicate IsWorld(e: Protocol.Event) {
    e.Arrive? || e.Withdraw? || e.TakeIn? || e.DamageFile? || e.NewGeneration?
  }

  predicate InFetch(s: Protocol.System) { s.session.Open? && s.session.phase.Fetching? }

  /** Every snapshot lies above the in-memory watermark. */
  ghost predicate AsksForNew(s: Protocol.System) {
    InFetch(s) && forall u :: u in s.session.phase.snapshot ==> u > s.session.lastUid
  }

  predicate During(es: seq<Protocol.Event>) { forall e :: e in es ==> e.Deliver? || IsWorld(e) }

  /** What these steps hand to the handler. */
  function Handed(cfg: Config, s: Protocol.System, es: seq<Protocol.Event>): seq<Delivery>
    requires Protocol.Possible(cfg, s, es)
    decreases |es|
  {
    if es == [] then []
    else
      var e := es[0];
      (if e.Deliver? then [Delivery(e.uid, s.box[e.uid], e.env)] else []) + Handed(cfg, Protocol.Next(cfg, s, e), es[1..])
  }

  /** This delivery puts its packet into the pipe. */
  predicate Taken(cfg: Config, d: Delivery) {
    !d.env.cancelled && d.env.injectOk && Protocol.KindAt(cfg, d.raw).Ours?
  }

  /** The packets of the deliveries that are taken. */
  function Packets(cfg: Config, ds: seq<Delivery>): seq<Bytes> {
    if ds == [] then []
    else (if Taken(cfg, ds[0]) then [Protocol.KindAt(cfg, ds[0].raw).packet] else []) + Packets(cfg, ds[1..])
  }

  /** Their injections, as the protocol records them. */
  function Keys(cfg: Config, v: Uid, ds: seq<Delivery>): multiset<Protocol.Key> {
    if ds == [] then multiset{}
    else (if Taken(cfg, ds[0]) then multiset{Protocol.Key(v, ds[0].uid)} else multiset{}) + Keys(cfg, v, ds[1..])
  }

  lemma PacketsHead(cfg: Config, d: Delivery, ds: seq<Delivery>)
    ensures Packets(cfg, [d] + ds) == (if Taken(cfg, d) then [Protocol.KindAt(cfg, d.raw).packet] else []) + Packets(cfg, ds)
    ensures forall v :: Keys(cfg, v, [d] + ds) ==
                        (if Taken(cfg, d) then multiset{Protocol.Key(v, d.uid)} else multiset{}) + Keys(cfg, v, ds)
  {
    hide Taken, Protocol.KindAt;
    assert ([d] + ds)[1..] == ds;
  }

  /** The session in s' is the one in s after a fetch that went as f says. */
  ghost predicate Went(s: Protocol.System, s': Protocol.System, f: Worker.Fetched) {
    && AsksForNew(s) && AsksForNew(s')
    && s'.session.validity == s.session.validity && s'.session.lastUid == s.session.lastUid
    && s'.session.phase.tally == f.tally && s'.session.phase.halted == f.err
  }

  lemma WorldStep(cfg: Config, s: Protocol.System, e: Protocol.Event)
    requires AsksForNew(s) && Protocol.Enabled(s, e) && IsWorld(e)
    ensures var p := s.session.phase;
            Went(s, Protocol.Next(cfg, s, e), Worker.Fetched(p.tally, [], p.halted))
    ensures Protocol.Next(cfg, s, e).injected == s.injected
  {
    hide Protocol.KindAt;
  }

  lemma DeliverStep(cfg: Config, s: Protocol.System, e: Protocol.Event)
    requires AsksForNew(s) && Protocol.Enabled(s, e) && e.Deliver?
    ensures !s.session.phase.halted && e.uid in s.box
    ensures var d := Delivery(e.uid, s.box[e.uid], e.env);
            var s' := Protocol.Next(cfg, s, e);
            var h := Handle(Protocol.KindAt(cfg, d.raw), s.session.phase.tally, d.uid, d.env);
            && Went(s, s', Worker.Fetched(h.tally, [], h.err))
            && s'.injected == s.injected + (if Taken(cfg, d) then multiset{Protocol.Key(s.session.validity, d.uid)} else multiset{})
            && Worker.Packets(h) == (if Taken(cfg, d) then [Protocol.KindAt(cfg, d.raw).packet] else [])
            && (h.err ==> !Taken(cfg, d))
  {
    hide Protocol.KindAt;
  }

  /** What the handler makes of what is handed over from here. */
  function FoldFrom(cfg: Config, s: Protocol.System, ds: seq<Delivery>): Worker.Fetched
    requires InFetch(s)
  {
    if s.session.phase.halted then Worker.Fetched(s.session.phase.tally, [], true)
    else Fold(cfg, ds, s.session.phase.tally)
  }

  lemma NoneHanded(cfg: Config, s: Protocol.System)
    requires InFetch(s)
    ensures Packets(cfg, []) == [] && forall v :: Keys(cfg, v, []) == multiset{}
    ensures FoldFrom(cfg, s, []) == Worker.Fetched(s.session.phase.tally, [], s.session.phase.halted)
  {
  }

  /** The steps of a fetch, with those of the world among them, are the fold of the handler
      over the messages they hand over: same tally, same end, and for every injection the
      packet of that message, in order. */
  lemma {:induction false} StepsAreFold(cfg: Config, s: Protocol.System, es: seq<Protocol.Event>)
    requires AsksForNew(s) && Protocol.Possible(cfg, s, es) && During(es)
    ensures var s', ds := Protocol.Play(cfg, s, es), Handed(cfg, s, es);
            && Went(s, s', FoldFrom(cfg, s, ds))
            && s'.injected == s.injected + Keys(cfg, s.session.validity, ds)
            && FoldFrom(cfg, s, ds).accepted == Packets(cfg, ds)
            && (s.session.phase.halted ==> ds == [])
    decreases |es|
  {
    hide Protocol.Next, Protocol.Enabled, Protocol.KindAt, Handle, Taken, Worker.Packets, Fold, Packets, Keys;
    NoneHanded(cfg, s);
    if es != [] {
      var e, rest := es[0], es[1..];
      assert es == [e] + rest;
      var s1 := Protocol.Next(cfg, s, e);
      if e.Deliver? {
        DeliverStep(cfg, s, e);
        StepsAreFold(cfg, s1, rest);
        var d, ds := Delivery(e.uid, s.box[e.uid], e.env), Handed(cfg, s1, rest);
        assert Handed(cfg, s, es) == [d] + ds;
        FoldHead(cfg, d, ds, s.session.phase.tally);
        PacketsHead(cfg, d, ds);
      } else {
        WorldStep(cfg, s, e);
        StepsAreFold(cfg, s1, rest);
        assert Handed(cfg, s, es) == Handed(cfg, s1, rest);
      }
    }
  }

  /* ---- A whole fetch ---- */

  /** The protocol's steps for one fetch up to its end, the world's among them. */
  function FetchSteps(during: seq<Protocol.Event>): seq<Protocol.Event> { [Protocol.StartFetch] + during }

  function Ending(ok: bool, fault: Fault): seq<Protocol.Event> { [Protocol.FinishFetch(ok), Protocol.Conclude(fault)] }

  /** What the end of a fetch does to the protocol's state, in the worker's terms. */
  ghost predicate Concluded(cfg: Config, s: Protocol.System, s': Protocol.System, f: Worker.Fetched, fault: Fault)
    requires s.session.Open?
  {
    var safe := SafeUid(s.session.lastUid, f.tally);
    var saved := Worker.Raises(s.session.lastUid, f) && fault == Fine;
    && s'.disk == (if saved then Advanced(s.disk, cfg.folder, s.session.validity, safe) else s.disk)
    && s'.injected == s.injected && s'.box == s.box
    && (if f.err then s'.session == Protocol.Closed
        else
          && s'.session.Open? && s'.session.connected
          && s'.session.lastUid == (if saved then safe else s.session.lastUid)
          && (saved ==> s'.session.phase == Protocol.Cleaning(Mailbox.UidSet(CleanupUids(f.tally, safe)))))
  }

  lemma EndSteps(cfg: Config, s: Protocol.System, ok: bool, fault: Fault)
    requires InFetch(s) && Protocol.Possible(cfg, s, Ending(ok, fault))
    ensures var p := s.session.phase;
            Concluded(cfg, s, Protocol.Play(cfg, s, Ending(ok, fault)), Worker.Fetched(p.tally, [], p.halted || !ok), fault)
  {
    hide Watermark;
    var es := Ending(ok, fault);
    assert es[1..] == [Protocol.Conclude(fault)] && es[1..][1..] == [];
    var s1 := Protocol.Next(cfg, s, es[0]);
    assert Protocol.Possible(cfg, s1, es[1..]);
    assert Protocol.Play(cfg, s, es) == Protocol.Play(cfg, s1, es[1..]);
    assert Protocol.Play(cfg, s1, es[1..]) == Protocol.Next(cfg, s1, es[1]);
  }

  /** Cleaning up some of what may be cleaned up. */
  function CleanEvents(uids: seq<Uid>): seq<Protocol.Event> {
    if uids == [] then [] else [Protocol.CleanOne(uids[0])] + CleanEvents(uids[1..])
  }

  lemma {:induction false} CleanSteps(cfg: Config, s: Protocol.System, gone: set<Uid>) returns (uids: seq<Uid>)
    requires gone != {} ==> s.session.Open? && s.session.connected && s.session.phase.Cleaning? && gone <= s.session.phase.todo
    ensures Protocol.Possible(cfg, s, CleanEvents(uids))
    ensures Protocol.Play(cfg, s, CleanEvents(uids)) == s.(box := s.box - gone)
    decreases |gone|
  {
    if gone == {} {
      uids := [];
      assert s.box - gone == s.box;
    } else {
      var u :| u in gone;
      var s1 := Protocol.Next(cfg, s, Protocol.CleanOne(u));
      var rest := CleanSteps(cfg, s1, gone - {u});
      uids := [u] + rest;
      assert uids[1..] == rest;
      assert CleanEvents(uids)[0] == Protocol.CleanOne(u) && CleanEvents(uids)[1..] == CleanEvents(rest);
      assert (s.box - {u}) - (gone - {u}) == s.box - gone;
    }
  }

  /** The contents of the mailbox, without its flags. */
  function Contents(box: Mailbox.Box): map<Uid, Bytes> { map u | u in box :: box[u].raw }

  lemma OnlyRemoved(before: Mailbox.Box, after: Mailbox.Box, uids: set<Uid>)
    requires Mailbox.OnlyTouches(before, after, uids)
    ensures before.Keys - after.Keys <= uids
    ensures Contents(after) == Contents(before) - (before.Keys - after.Keys)
  {
  }

  /** The steps of a fetch from its start, as the fold of the handler. */
  lemma FetchIsFold(cfg: Config, s: Protocol.System, during: seq<Protocol.Event>)
    requires s.session.Open? && During(during) && Protocol.Possible(cfg, s, FetchSteps(during))
    ensures var s', ds := Protocol.Play(cfg, s, FetchSteps(during)), Handed(cfg, s, FetchSteps(during));
            var f := Fold(cfg, ds, EMPTY);
            && InFetch(s') && s'.session.validity == s.session.validity && s'.session.lastUid == s.session.lastUid
            && s'.session.phase.tally == f.tally && s'.session.phase.halted == f.err
            && s'.injected == s.injected + Keys(cfg, s.session.validity, ds)
            && f.accepted == Packets(cfg, ds)
  {
    hide Protocol.KindAt, Fold, Keys, Packets;
    var es := FetchSteps(during);
    assert es[0] == Protocol.StartFetch && es[1..] == during;
    var s1 := Protocol.Next(cfg, s, Protocol.StartFetch);
    assert AsksForNew(s1);
    StepsAreFold(cfg, s1, during);
    hide Protocol.Next, Protocol.Enabled;
    assert Handed(cfg, s, es) == Handed(cfg, s1, during);
  }

  /** The worker's fetch does what a run of the protocol does, and then cleanup of single
      messages: file, mailbox, result and packets agree.  The replies may hold stale and
      bodiless messages, other items in any order, and a literal that breaks; the world may
      go on between the messages; the file and the mailbox are as the fetch finds them when
      it turns to them, at its end.  All that is asked is that the messages handed over are
      those that the server had at that step. */
  method FetchIsRun(cfg: Config, ghost s: Protocol.System, ghost during: seq<Protocol.Event>,
                    lastUid: Uid, validity: Uid, replies: seq<Worker.Reply>, closeOk: bool, fault: Fault,
                    mode: Mailbox.Mode, caps: Mailbox.Caps, answers: Mailbox.Answers,
                    repo: JsonRepo, server: Mailbox.Server, pipe: Worker.Pipe)
    returns (newUid: Uid, err: bool, ghost es: seq<Protocol.Event>, ghost cleaned: seq<Uid>)
    requires s.session.Open? && lastUid == s.session.lastUid && validity == s.session.validity
    requires During(during) && Protocol.Possible(cfg, s, FetchSteps(during))
    requires HandOver(cfg, lastUid, replies, Handed(cfg, s, FetchSteps(during)), EMPTY)
    requires var end := Protocol.Play(cfg, s, FetchSteps(during));
             && Protocol.Possible(cfg, end, Ending(closeOk && !Breaks(replies), fault))
             && repo.file == end.disk && Contents(server.box) == end.box
    modifies repo, server, pipe
    ensures es == FetchSteps(during) + Ending(closeOk && !Breaks(replies), fault) + CleanEvents(cleaned)
    ensures Protocol.Possible(cfg, s, es)
    ensures var s' := Protocol.Play(cfg, s, es);
            && repo.file == s'.disk && Contents(server.box) == s'.box
            && (err <==> s'.session.Closed?)
            && (!err ==> newUid == s'.session.lastUid)
    // Every injected message put its own packet into the pipe, once and in order.
    ensures var ds := Handed(cfg, s, FetchSteps(during));
            && Protocol.Play(cfg, s, es).injected == s.injected + Keys(cfg, validity, ds)
            && pipe.accepted == old(pipe.accepted) + Packets(cfg, ds)
  {
    hide Worker.Deliver, Watermark, Packets, Keys, Fold, Handed, Ending, FetchSteps;
    hide During, Breaks, HandOver, Protocol.Play, Protocol.Possible;
    ghost var box, ds, ok := server.box, Handed(cfg, s, FetchSteps(during)), closeOk && !Breaks(replies);
    ghost var end := Protocol.Play(cfg, s, FetchSteps(during));
    FetchIsFold(cfg, s, during);
    DeliverIsFold(cfg, lastUid, replies, ds, EMPTY);
    EndSteps(cfg, end, ok, fault);
    newUid, err := Worker.FetchAndProcess(cfg, mode, caps, lastUid, validity, replies, closeOk, fault, answers,
                                          repo, server, pipe);
    ghost var f := Worker.FetchResult(cfg, lastUid, replies, closeOk);
    OnlyRemoved(box, server.box, Mailbox.UidSet(CleanupUids(f.tally, SafeUid(lastUid, f.tally))));
    ghost var concluded := Protocol.Play(cfg, end, Ending(ok, fault));
    cleaned := CleanSteps(cfg, concluded, box.Keys - server.box.Keys);
    es := FetchSteps(during) + Ending(ok, fault) + CleanEvents(cleaned);
    Protocol.PlayConcat(cfg, s, FetchSteps(during), Ending(ok, fault));
    Protocol.PlayConcat(cfg, s, FetchSteps(during) + Ending(ok, fault), CleanEvents(cleaned));
  }

  /** Opening a session is asking the file for the checkpoint: no answer, no session. */
  method OpenIsStep(cfg: Config, ghost s: Protocol.System, validity: Uid, repo: JsonRepo, fault: Fault)
    returns (uid: Option<Uid>)
    requires s.session.Closed? && validity == s.validity && repo.file == s.disk
    ensures var s' := Protocol.Next(cfg, s, Protocol.OpenSession(fault));
            && s' == s.(session := s'.session) && repo.file == s'.disk
            && (uid.None? ==> s'.session.Closed?)
            && (uid.Some? ==> s'.session == Protocol.Open(validity, uid.value, true, Protocol.Ready))
  {
    uid := repo.GetCheckpoint(cfg.folder, validity, fault);
  }
}
