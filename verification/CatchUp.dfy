/** Whatever went wrong, one clean session catches up. */
module CatchUp {
  import opened Checkpoint
  import opened Inbound
  import opened Protocol
  import NoLoss

  const TAKEN := Env(false, true)

  function Deliveries(uids: seq<Uid>): seq<Event> {
    if uids == [] then [] else [Deliver(uids[0], TAKEN)] + Deliveries(uids[1..])
  }

  /** One crash, one session, and one complete fetch that is handed these messages. */
  function CleanSession(uids: seq<Uid>): seq<Event> {
    [Crash, OpenSession(Fine), StartFetch] + Deliveries(uids) + [FinishFetch(true), Conclude(Fine)]
  }

  function BoxKind(cfg: Config, s: System, u: Uid): Kind
    requires u in s.box
  {
    KindAt(cfg, s.box[u])
  }

  /** A fetch in which nothing has failed but decoding, and that only for broken messages. */
  ghost predicate GoingWell(cfg: Config, s: System) {
    && s.session.Open? && s.session.connected && s.session.phase.Fetching?
    && !s.session.phase.halted && s.session.phase.tally.failed == 0
    && var d := s.session.phase.tally.decodeFailed;
       d > 0 ==> d in s.session.phase.delivered && d in s.box && BoxKind(cfg, s, d).Broken?
  }

  lemma DeliverOne(cfg: Config, s: System, u: Uid)
    requires Inv(cfg, s) && GoingWell(cfg, s) && u in s.session.phase.snapshot && u in s.box
    ensures Enabled(s, Deliver(u, TAKEN))
    ensures var s' := Next(cfg, s, Deliver(u, TAKEN));
            && GoingWell(cfg, s')
            && s' == s.(session := s'.session, injected := s'.injected)
            && s'.session == s.session.(phase := s'.session.phase)
            && s'.session.phase == s.session.phase.(delivered := s.session.phase.delivered + {u},
                                                    tally := s'.session.phase.tally)
  {
    hide KindAt, Inv;
  }

  lemma {:induction false} DeliverAll(cfg: Config, s: System, todo: set<Uid>) returns (uids: seq<Uid>)
    requires Inv(cfg, s) && GoingWell(cfg, s) && todo <= s.session.phase.snapshot && todo <= s.box.Keys
    ensures Possible(cfg, s, Deliveries(uids))
    ensures var s' := Play(cfg, s, Deliveries(uids));
            && Inv(cfg, s') && GoingWell(cfg, s')
            && s' == s.(session := s'.session, injected := s'.injected)
            && s'.session == s.session.(phase := s'.session.phase)
            && s'.session.phase == s.session.phase.(delivered := s.session.phase.delivered + todo,
                                                    tally := s'.session.phase.tally)
    decreases |todo|
  {
    hide Inv, Next, Enabled, BoxKind;
    if todo == {} {
      uids := [];
      assert s.session.phase.delivered + todo == s.session.phase.delivered;
    } else {
      var u :| u in todo;
      DeliverOne(cfg, s, u);
      assert Orderly(cfg, s, Deliver(u, TAKEN));
      StepKeeps(cfg, s, Deliver(u, TAKEN));
      var s1 := Next(cfg, s, Deliver(u, TAKEN));
      var rest := DeliverAll(cfg, s1, todo - {u});
      uids := [u] + rest;
      assert uids[1..] == rest;
      assert Deliveries(uids)[0] == Deliver(u, TAKEN) && Deliveries(uids)[1..] == Deliveries(rest);
      assert (s.session.phase.delivered + {u}) + (todo - {u}) == s.session.phase.delivered + todo;
    }
  }

  /** Where the new watermark comes to lie: above everything before the first broken message
      that the old one had not passed, and below that one. */
  ghost predicate UpToBroken(cfg: Config, s: System, before: Uid, w: Uid) {
    && before <= w
    && (forall b :: b in s.box && b > before && BoxKind(cfg, s, b).Broken? ==> w < b)
    && (forall u :: u in s.box && (forall b :: b in s.box && b > before && BoxKind(cfg, s, b).Broken? ==> u < b) ==> u <= w)
  }

  /** Every valid message of the current generation has been injected or taken away by others. */
  ghost predicate NothingOwed(cfg: Config, s: System) {
    forall k :: k in s.history && k.validity == s.validity && KindAt(cfg, s.history[k]).Ours? ==>
                  k in s.injected || k in s.withdrawn
  }

  /** A fetch that was handed all that is there. */
  ghost predicate AllHanded(s: System) {
    && s.session.Open? && s.session.connected && s.session.phase.Fetching?
    && forall u :: u in s.box && u > s.session.lastUid ==> u in s.session.phase.delivered
  }

  lemma HandedIsInjected(cfg: Config, s: System)
    requires Inv(cfg, s) && GoingWell(cfg, s) && AllHanded(s)
    ensures NothingOwed(cfg, s)
  {
    hide KindAt, DiskInv;
    forall k | k in s.history && k.validity == s.validity && KindAt(cfg, s.history[k]).Ours?
      ensures k in s.injected || k in s.withdrawn
    {
      if k.uid <= s.session.lastUid {
        assert Settled(cfg, s, k);
      } else if k.uid in s.box {
        assert k == Key(s.session.validity, k.uid);
      }
    }
  }

  /** What the tally says about each kind of message in the box. */
  lemma HandedIsRecorded(cfg: Config, s: System, u: Uid)
    requires Inv(cfg, s) && GoingWell(cfg, s) && AllHanded(s) && u in s.box && u > s.session.lastUid
    ensures var t := s.session.phase.tally;
            if BoxKind(cfg, s, u).Broken? then 0 < t.decodeFailed <= u && u !in t.processed + t.skipped
            else u in t.processed + t.skipped
  {
    hide KindAt, DiskInv, Covered, Settled, WatermarkInv;
    assert Key(s.validity, u) in s.history;
  }

  lemma CeilingIsBroken(t: Tally)
    requires t.failed == 0
    ensures Ceiling(t) == t.decodeFailed
  {
  }

  lemma WatermarkBelow(lastUid: Uid, t: Tally, b: Uid)
    requires t.failed == 0 && 0 < t.decodeFailed <= b && b > lastUid && b !in t.processed + t.skipped
    ensures SafeUid(lastUid, t) < b
  {
    var m := SafeUid(lastUid, t);
    CeilingIsBroken(t);
    assert m == lastUid || (m in t.processed + t.skipped && Allowed(m, Ceiling(t)));
    hide Watermark, SafeUid;
  }

  lemma StaysBelow(cfg: Config, s: System, b: Uid)
    requires Inv(cfg, s) && GoingWell(cfg, s) && AllHanded(s)
    requires b in s.box && b > s.session.lastUid && BoxKind(cfg, s, b).Broken?
    ensures SafeUid(s.session.lastUid, s.session.phase.tally) < b
  {
    hide KindAt, Inv, BoxKind, SafeUid;
    HandedIsRecorded(cfg, s, b);
    WatermarkBelow(s.session.lastUid, s.session.phase.tally, b);
  }

  lemma ReachesUp(cfg: Config, s: System, u: Uid)
    requires Inv(cfg, s) && GoingWell(cfg, s) && AllHanded(s)
    requires u in s.box && forall b :: b in s.box && b > s.session.lastUid && BoxKind(cfg, s, b).Broken? ==> u < b
    ensures u <= SafeUid(s.session.lastUid, s.session.phase.tally)
  {
    var t := s.session.phase.tally;
    if u > s.session.lastUid {
      HandedIsRecorded(cfg, s, u);
      if t.decodeFailed > 0 { DelayedIsNew(cfg, s); }
      hide KindAt, Inv, BoxKind, Watermark, AllHanded;
      CeilingIsBroken(t);
      assert Allowed(u, Ceiling(t));
    }
  }

  lemma HandedIsPassed(cfg: Config, s: System)
    requires Inv(cfg, s) && GoingWell(cfg, s) && AllHanded(s)
    ensures UpToBroken(cfg, s, s.session.lastUid, SafeUid(s.session.lastUid, s.session.phase.tally))
  {
    hide KindAt, Inv, Watermark, BoxKind, AllHanded;
    var before, w := s.session.lastUid, SafeUid(s.session.lastUid, s.session.phase.tally);
    forall b | b in s.box && b > before && BoxKind(cfg, s, b).Broken? ensures w < b {
      StaysBelow(cfg, s, b);
    }
    forall u | u in s.box && (forall b :: b in s.box && b > before && BoxKind(cfg, s, b).Broken? ==> u < b) ensures u <= w {
      ReachesUp(cfg, s, u);
    }
  }

  lemma DelayedIsNew(cfg: Config, s: System)
    requires Inv(cfg, s) && GoingWell(cfg, s) && s.session.phase.tally.decodeFailed > 0
    ensures s.session.phase.tally.decodeFailed > s.session.lastUid
  {
    hide KindAt, ServerInv, DiskInv, TallyInv, Covered;
  }

  lemma Reopen(cfg: Config, s: System) returns (s': System)
    requires Inv(cfg, s)
    ensures Possible(cfg, s, [Crash, OpenSession(Fine), StartFetch])
    ensures s' == Play(cfg, s, [Crash, OpenSession(Fine), StartFetch]) && Inv(cfg, s') && GoingWell(cfg, s')
    ensures s' == s.(session := s'.session) && s'.session.lastUid == Lookup(s.disk, cfg.folder, s.validity)
    ensures s'.session.validity == s.validity && s'.session.phase.delivered == {}
    ensures s'.session.phase.snapshot == set u | u in s.box && u > s'.session.lastUid
  {
    hide Inv, KindAt;
    var s1 := Next(cfg, s, Crash);
    StepKeeps(cfg, s, Crash);
    var s2 := Next(cfg, s1, OpenSession(Fine));
    StepKeeps(cfg, s1, OpenSession(Fine));
    s' := Next(cfg, s2, StartFetch);
    StepKeeps(cfg, s2, StartFetch);
    PlayOne(cfg, s2, StartFetch);
    PlayFirst(cfg, s1, OpenSession(Fine), [StartFetch]);
    PlayFirst(cfg, s, Crash, [OpenSession(Fine), StartFetch]);
    assert [Crash] + [OpenSession(Fine), StartFetch] == [Crash, OpenSession(Fine), StartFetch];
    assert [OpenSession(Fine)] + [StartFetch] == [OpenSession(Fine), StartFetch];
  }

  lemma Finish(cfg: Config, s: System) returns (s': System)
    requires Inv(cfg, s) && GoingWell(cfg, s) && s.session.phase.snapshot == s.session.phase.delivered
    requires s.session.validity == s.validity && s.session.lastUid == Lookup(s.disk, cfg.folder, s.validity)
    ensures Possible(cfg, s, [FinishFetch(true), Conclude(Fine)])
    ensures s' == Play(cfg, s, [FinishFetch(true), Conclude(Fine)]) && Inv(cfg, s')
    ensures s' == s.(session := s'.session, disk := s'.disk)
    ensures Lookup(s'.disk, cfg.folder, s.validity) == SafeUid(s.session.lastUid, s.session.phase.tally)
  {
    hide Inv, KindAt, Watermark, BoxKind;
    var s1 := Next(cfg, s, FinishFetch(true));
    StepKeeps(cfg, s, FinishFetch(true));
    s' := Next(cfg, s1, Conclude(Fine));
    StepKeeps(cfg, s1, Conclude(Fine));
    PlayOne(cfg, s1, Conclude(Fine));
    PlayFirst(cfg, s, FinishFetch(true), [Conclude(Fine)]);
    assert [FinishFetch(true)] + [Conclude(Fine)] == [FinishFetch(true), Conclude(Fine)];
  }

  /** From every state that a run can reach, in whatever fetch or fault it is, one crash, one
      session and one complete fetch inject every valid message of the current generation that
      is still owed, and take the checkpoint up to the first broken message. */
  lemma OneSessionCatchesUp(cfg: Config, s: System) returns (uids: seq<Uid>)
    requires Inv(cfg, s)
    ensures Possible(cfg, s, CleanSession(uids))
    ensures var s' := Play(cfg, s, CleanSession(uids));
            && Inv(cfg, s') && s'.history == s.history && s'.box == s.box && s'.validity == s.validity
            && NothingOwed(cfg, s')
            && UpToBroken(cfg, s, Lookup(s.disk, cfg.folder, s.validity), Lookup(s'.disk, cfg.folder, s.validity))
  {
    hide Inv, Next, Enabled, GoingWell, UpToBroken, Possible, Play, KindAt;
    var s1 := Reopen(cfg, s);
    assert s1.session.phase.Fetching? by { WellFetches(cfg, s1); }
    var todo := s1.session.phase.snapshot;
    uids := DeliverAll(cfg, s1, todo);
    var s2 := Play(cfg, s1, Deliveries(uids));
    WellFetches(cfg, s2);
    assert s2.session.phase.delivered == todo;
    HandedIsInjected(cfg, s2);
    HandedIsPassed(cfg, s2);
    var s' := Finish(cfg, s2);
    var start, end := [Crash, OpenSession(Fine), StartFetch], [FinishFetch(true), Conclude(Fine)];
    PlayConcat(cfg, s, start, Deliveries(uids));
    PlayConcat(cfg, s, start + Deliveries(uids), end);
    SameBox(cfg, s2, s, s1.session.lastUid, SafeUid(s1.session.lastUid, s2.session.phase.tally));
  }

  /** The same at the end of every run from an empty mailbox. */
  lemma AlwaysCatchesUp(cfg: Config, validity: Uid, es: seq<Event>) returns (uids: seq<Uid>)
    requires IsRun(cfg, Initial(validity), es)
    ensures Possible(cfg, Initial(validity), es) && Possible(cfg, Initial(validity), es + CleanSession(uids))
    ensures var s, s' := Play(cfg, Initial(validity), es), Play(cfg, Initial(validity), es + CleanSession(uids));
            && s'.history == s.history && s'.validity == s.validity && NothingOwed(cfg, s')
            && UpToBroken(cfg, s, Lookup(s.disk, cfg.folder, s.validity), Lookup(s'.disk, cfg.folder, s.validity))
  {
    NoLoss.InitialInv(cfg, validity);
    hide Inv, Next, Enabled, UpToBroken, NothingOwed, Possible, Play, Initial, CleanSession;
    RunKeeps(cfg, Initial(validity), es);
    uids := OneSessionCatchesUp(cfg, Play(cfg, Initial(validity), es));
    PlayConcat(cfg, Initial(validity), es, CleanSession(uids));
  }

  lemma WellFetches(cfg: Config, s: System)
    requires GoingWell(cfg, s)
    ensures s.session.Open? && s.session.connected && s.session.phase.Fetching?
  {
  }

  lemma SameBox(cfg: Config, s: System, s': System, before: Uid, w: Uid)
    requires s.box == s'.box && UpToBroken(cfg, s, before, w)
    ensures UpToBroken(cfg, s', before, w)
  {
    hide KindAt;
    assert forall u :: u in s.box ==> BoxKind(cfg, s, u) == BoxKind(cfg, s', u);
  }
}
