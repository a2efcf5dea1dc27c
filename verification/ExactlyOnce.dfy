/** Runs without faults inject every message exactly once. */
module ExactlyOnce {
  import opened Checkpoint
  import opened Inbound
  import opened Protocol
  import NoLoss

  /** Fetches complete, injections and saves succeed, no message is broken, the file and the
      generation stay, and the session ends only between fetches. */
  ghost predicate FaultFree(cfg: Config, s: System, e: Event) {
    && Enabled(s, e)
    && match e
       case Arrive(_, raw) => !KindAt(cfg, raw).Broken?
       case NewGeneration(_) => false
       case DamageFile(_) => false
       case OpenSession(fault) => fault == Fine
       case Deliver(uid, env) => env == Env(false, true) && uid !in s.session.phase.delivered
       case FinishFetch(ok) => ok
       case Conclude(fault) => fault == Fine
       case Crash => s.session.Open? ==> s.session.phase.Ready? || s.session.phase.Cleaning?
       case _ => true
  }

  ghost predicate FaultFreeRun(cfg: Config, s: System, es: seq<Event>)
    decreases |es|
  {
    es == [] || (FaultFree(cfg, s, es[0]) && FaultFreeRun(cfg, Next(cfg, s, es[0]), es[1..]))
  }

  /** The stored watermark of the current generation. */
  function Mark(cfg: Config, s: System): Uid { Lookup(s.disk, cfg.folder, s.validity) }

  /** In a fetch: no failure so far, and everything seen was processed or skipped. */
  ghost predicate CleanFetch(s: System, p: Phase)
    requires p.Fetching?
  {
    && !p.halted && p.tally.failed == 0 && p.tally.decodeFailed == 0
    && (forall u :: u in p.delivered <==> u in p.tally.processed + p.tally.skipped)
    && (forall u :: u in s.box && s.session.Open? && s.session.lastUid < u < p.bound ==> u in p.snapshot)
  }

  /** Who has been injected so far: what the watermark covers and what this fetch saw. */
  ghost predicate Seen(cfg: Config, s: System, u: Uid) {
    u <= Mark(cfg, s) ||
    (s.session.Open? && s.session.phase.Fetching? && u in s.session.phase.delivered) ||
    (s.session.Open? && s.session.phase.Judged? && u <= SafeUid(s.session.lastUid, s.session.phase.tally))
  }

  ghost predicate ExactInv(cfg: Config, s: System) {
    && (forall k :: s.injected[k] <= 1)
    && (forall k :: k in s.injected ==> k.validity == s.validity && Seen(cfg, s, k.uid))
    && (forall k :: k in s.history ==> !KindAt(cfg, s.history[k]).Broken?)
    && (forall k :: k in s.withdrawn ==> k in s.history && !(k.validity == s.validity && k.uid in s.box))
    && (s.session.Open? ==>
          && s.session.connected && s.session.lastUid == Mark(cfg, s)
          && match s.session.phase
             case Fetching(_, _, _, _, _) => CleanFetch(s, s.session.phase)
             case Judged(t, err) => !err && t.failed == 0 && t.decodeFailed == 0
             case _ => true)
  }

  lemma FaultFreeIsOrderly(cfg: Config, s: System, e: Event)
    requires ExactInv(cfg, s) && FaultFree(cfg, s, e)
    ensures Orderly(cfg, s, e)
  {
    hide KindAt, Gapless, Seen, Mark, Watermark;
  }

  /** Without failures the watermark reaches everything the handler took. */
  lemma WatermarkReaches(lastUid: Uid, t: Tally, u: Uid)
    requires t.failed == 0 && t.decodeFailed == 0 && u in t.processed + t.skipped
    ensures u <= SafeUid(lastUid, t)
  {
    assert Allowed(u, Ceiling(t));
  }

  lemma DeliverIsNew(cfg: Config, s: System, e: Event)
    requires Inv(cfg, s) && ExactInv(cfg, s) && FaultFree(cfg, s, e) && e.Deliver?
    ensures Key(s.session.validity, e.uid) !in s.injected
    ensures Key(s.validity, e.uid) in s.history && s.history[Key(s.validity, e.uid)] == s.box[e.uid]
    ensures !KindAt(cfg, s.box[e.uid]).Broken? && s.session.validity == s.validity
  {
    hide KindAt, Settled, Covered, TallyInv, WatermarkInv, DiskInv, CleanFetch;
    assert e.uid > s.session.lastUid;
    assert !Seen(cfg, s, e.uid);
  }

  lemma DeliverFetch(cfg: Config, s: System, e: Event)
    requires Inv(cfg, s) && ExactInv(cfg, s) && FaultFree(cfg, s, e) && e.Deliver?
    ensures var s' := Next(cfg, s, e); s'.session.phase.Fetching? && CleanFetch(s', s'.session.phase)
  {
    hide KindAt, ServerInv, DiskInv, SessionInv, Seen, Mark;
    DeliverIsNew(cfg, s, e);
  }

  lemma DeliverOnce(cfg: Config, s: System, e: Event)
    requires Inv(cfg, s) && ExactInv(cfg, s) && FaultFree(cfg, s, e) && e.Deliver?
    ensures ExactInv(cfg, Next(cfg, s, e))
  {
    hide KindAt, ServerInv, DiskInv, SessionInv, CleanFetch;
    var s' := Next(cfg, s, e);
    DeliverIsNew(cfg, s, e);
    DeliverFetch(cfg, s, e);
    assert Mark(cfg, s') == Mark(cfg, s);
    hide Mark;
    var key := Key(s.validity, e.uid);
    forall k | k in s'.injected ensures k.validity == s'.validity && Seen(cfg, s', k.uid) {
      if k != key { assert k in s.injected && Seen(cfg, s, k.uid); }
    }
  }

  lemma FinishOnce(cfg: Config, s: System, e: Event)
    requires Inv(cfg, s) && ExactInv(cfg, s) && FaultFree(cfg, s, e) && e.FinishFetch?
    ensures ExactInv(cfg, Next(cfg, s, e))
  {
    hide KindAt, Inv, Watermark;
    var s' := Next(cfg, s, e);
    var lastUid, t := s.session.lastUid, s.session.phase.tally;
    forall k | k in s'.injected ensures k.validity == s'.validity && Seen(cfg, s', k.uid) {
      assert Seen(cfg, s, k.uid);
      if k.uid in s.session.phase.delivered { WatermarkReaches(lastUid, t, k.uid); }
    }
  }

  lemma ConcludeOnce(cfg: Config, s: System, e: Event)
    requires Inv(cfg, s) && ExactInv(cfg, s) && FaultFree(cfg, s, e) && e.Conclude?
    ensures ExactInv(cfg, Next(cfg, s, e))
  {
    hide KindAt, Watermark, Settled, ServerInv, DiskInv;
    var s' := Next(cfg, s, e);
    var safe := SafeUid(s.session.lastUid, s.session.phase.tally);
    assert s.session.validity == s.validity;
    assert Mark(cfg, s') == safe;
    forall k | k in s'.injected ensures k.validity == s'.validity && Seen(cfg, s', k.uid) {
      assert Seen(cfg, s, k.uid);
    }
  }

  lemma WorldSeen(cfg: Config, s: System, e: Event)
    requires Inv(cfg, s) && ExactInv(cfg, s) && FaultFree(cfg, s, e) && (e.Arrive? || e.Withdraw?)
    ensures var s' := Next(cfg, s, e); forall k :: k in s'.injected ==> k.validity == s'.validity && Seen(cfg, s', k.uid)
  {
    hide KindAt, Watermark, Inv, CleanFetch;
    var s' := Next(cfg, s, e);
    assert Mark(cfg, s') == Mark(cfg, s);
    hide Mark;
    forall k | k in s'.injected ensures k.validity == s'.validity && Seen(cfg, s', k.uid) {
      assert Seen(cfg, s, k.uid);
    }
  }

  lemma WorldFetch(cfg: Config, s: System, e: Event)
    requires Inv(cfg, s) && ExactInv(cfg, s) && FaultFree(cfg, s, e) && (e.Arrive? || e.Withdraw?)
    requires s.session.Open? && s.session.phase.Fetching?
    ensures CleanFetch(Next(cfg, s, e), s.session.phase)
  {
    hide KindAt, Watermark, ServerInv, DiskInv, SessionInv, Seen, Mark;
    BoundIsOld(cfg, s);
  }

  lemma WorldHistory(cfg: Config, s: System, e: Event)
    requires ServerInv(cfg, s) && ExactInv(cfg, s) && FaultFree(cfg, s, e) && (e.Arrive? || e.Withdraw?)
    ensures var s' := Next(cfg, s, e);
            && (forall k :: k in s'.history ==> !KindAt(cfg, s'.history[k]).Broken?)
            && (forall k :: k in s'.withdrawn ==> k in s'.history && !(k.validity == s'.validity && k.uid in s'.box))
  {
    hide KindAt, Watermark, Seen, Mark, CleanFetch;
  }

  lemma WorldOnce(cfg: Config, s: System, e: Event)
    requires Inv(cfg, s) && ExactInv(cfg, s) && FaultFree(cfg, s, e) && (e.Arrive? || e.Withdraw?)
    ensures ExactInv(cfg, Next(cfg, s, e))
  {
    hide KindAt, Watermark, ServerInv, DiskInv, SessionInv, Seen, CleanFetch;
    var s' := Next(cfg, s, e);
    WorldSeen(cfg, s, e);
    WorldHistory(cfg, s, e);
    if s.session.Open? && s.session.phase.Fetching? { WorldFetch(cfg, s, e); }
    assert s' == s.(box := s'.box, uidNext := s'.uidNext, history := s'.history, withdrawn := s'.withdrawn);
    assert Mark(cfg, s') == Mark(cfg, s);
    hide Next, FaultFree, Mark;
  }

  lemma BoundIsOld(cfg: Config, s: System)
    requires Inv(cfg, s) && ExactInv(cfg, s) && s.session.Open? && s.session.phase.Fetching?
    ensures s.session.phase.bound <= s.uidNext
  {
    hide KindAt, Watermark, Settled, TallyInv, DiskInv, Covered, ServerInv;
  }

  lemma TakeInOnce(cfg: Config, s: System, e: Event)
    requires Inv(cfg, s) && ExactInv(cfg, s) && FaultFree(cfg, s, e) && e.TakeIn?
    ensures ExactInv(cfg, Next(cfg, s, e))
  {
    hide KindAt, Watermark, ServerInv, DiskInv, SessionInv;
    var s' := Next(cfg, s, e);
    assert Mark(cfg, s') == Mark(cfg, s);
    hide Mark;
    assert CleanFetch(s', s'.session.phase);
    forall k | k in s'.injected ensures k.validity == s'.validity && Seen(cfg, s', k.uid) {
      assert Seen(cfg, s, k.uid);
    }
  }

  lemma SessionOnce(cfg: Config, s: System, e: Event)
    requires Inv(cfg, s) && ExactInv(cfg, s) && FaultFree(cfg, s, e)
    requires e.OpenSession? || e.StartFetch? || e.CleanOne? || e.DoneCleaning? || e.Crash?
    ensures ExactInv(cfg, Next(cfg, s, e))
  {
    hide KindAt, Watermark, ServerInv, DiskInv, SessionInv;
    var s' := Next(cfg, s, e);
    assert Mark(cfg, s') == Mark(cfg, s);
    hide Mark;
    forall k | k in s'.injected ensures k.validity == s'.validity && Seen(cfg, s', k.uid) {
      assert Seen(cfg, s, k.uid);
    }
  }

  lemma {:induction false} FaultFreeKeeps(cfg: Config, s: System, es: seq<Event>)
    requires Inv(cfg, s) && ExactInv(cfg, s) && FaultFreeRun(cfg, s, es)
    ensures IsRun(cfg, s, es) && Possible(cfg, s, es)
    ensures Inv(cfg, Play(cfg, s, es)) && ExactInv(cfg, Play(cfg, s, es))
    decreases |es|
  {
    if es != [] {
      var e := es[0];
      FaultFreeIsOrderly(cfg, s, e);
      hide Inv, Next, ExactInv;
      StepKeeps(cfg, s, e);
      if e.Deliver? { DeliverOnce(cfg, s, e); }
      else if e.FinishFetch? { FinishOnce(cfg, s, e); }
      else if e.Conclude? { ConcludeOnce(cfg, s, e); }
      else if e.TakeIn? { TakeInOnce(cfg, s, e); }
      else if e.Arrive? || e.Withdraw? { WorldOnce(cfg, s, e); }
      else { SessionOnce(cfg, s, e); }
      FaultFreeKeeps(cfg, Next(cfg, s, e), es[1..]);
    }
  }

  /** Over any number of fetches and reconnects without faults, nothing is injected twice, and
      every valid message that the checkpoint has passed was injected exactly once, unless
      another client took it away first. */
  lemma InjectedExactlyOnce(cfg: Config, validity: Uid, es: seq<Event>)
    requires FaultFreeRun(cfg, Initial(validity), es)
    ensures Possible(cfg, Initial(validity), es)
    ensures var s := Play(cfg, Initial(validity), es);
            && (forall k :: s.injected[k] <= 1)
            && (forall k :: k in s.history && NoLoss.Passed(cfg, s, k) && KindAt(cfg, s.history[k]).Ours? ==>
                  s.injected[k] == 1 || k in s.withdrawn)
  {
    hide KindAt;
    NoLoss.InitialInv(cfg, validity);
    assert ExactInv(cfg, Initial(validity));
    FaultFreeKeeps(cfg, Initial(validity), es);
    NoLoss.NothingIsLost(cfg, validity, es);
  }

  /** A completed fetch leaves nothing for an immediate second one: the next fetch can only be
      handed messages that arrived after the first began, or last took in new mail. */
  lemma RefetchIsEmpty(cfg: Config, s: System)
    requires Inv(cfg, s) && ExactInv(cfg, s) && FaultFree(cfg, s, FinishFetch(true))
    ensures var s1 := Next(cfg, s, FinishFetch(true));
            var s2 := Next(cfg, s1, Conclude(Fine));
            && s2.session.Open?
            && (forall u :: u in s2.box && u > s2.session.lastUid ==> u >= s.session.phase.bound)
            && (s.uidNext == s.session.phase.bound ==> forall u :: u in s2.box ==> u <= s2.session.lastUid)
  {
    hide KindAt, Watermark, Settled, TallyInv, DiskInv, Covered;
    var s1 := Next(cfg, s, FinishFetch(true));
    var s2 := Next(cfg, s1, Conclude(Fine));
    var p := s.session.phase;
    assert s2.session.lastUid == SafeUid(s.session.lastUid, p.tally);
    forall u | u in s.box && s.session.lastUid < u < p.bound ensures u <= s2.session.lastUid {
      assert u in p.snapshot;
      assert Key(s.session.validity, u) !in s.withdrawn;
      assert u in p.delivered;
      WatermarkReaches(s.session.lastUid, p.tally, u);
    }
    forall u | u in s2.box ensures u < s.uidNext {
      assert Key(s.validity, u) in s.history;
    }
  }
}
