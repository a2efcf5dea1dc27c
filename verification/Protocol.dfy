/** The inbound checkpoint protocol as a step system: a mailbox that grows, loses mail and
    changes generation, a checkpoint file, and a worker that fetches, persists, cleans up,
    disconnects and crashes.  Invariants over every run. */
module Protocol {
  import opened Octets
  import opened Checkpoint
  import opened Inbound
  import Literal

  /** A message for all time: UIDs are never reused within a UIDVALIDITY (section 2.3.1.1 of
      RFC 3501). */
  datatype Key = Key(validity: Uid, uid: Uid)

  /** Where a session is in its fetch cycle.  `snapshot` is the messages the fetch asks for,
      which are those that had arrived when it began or last took in new mail; `bound` was the
      next UID then; `delivered` is what the handler has seen. */
  datatype Phase =
    | Ready
    | Fetching(bound: nat, snapshot: set<Uid>, delivered: set<Uid>, tally: Tally, halted: bool)
    | Judged(tally: Tally, err: bool)
    | Cleaning(todo: set<Uid>)

  datatype Session = Closed | Open(validity: Uid, lastUid: Uid, connected: bool, phase: Phase)

  /** Server, disk and process, with the record of every message that ever arrived, the
      injections, and the messages that other clients removed. */
  datatype System = System(validity: Uid, uidNext: nat, box: map<Uid, Bytes>,
                           disk: Disk, session: Session,
                           history: map<Key, Bytes>, injected: multiset<Key>, withdrawn: set<Key>)

  datatype Event =
    | Arrive(uid: Uid, raw: Bytes)
    | Withdraw(uid: Uid)
    | NewGeneration(validity: Uid)
    | DamageFile(corrupt: bool)
    | OpenSession(fault: Fault)
    | StartFetch
    | TakeIn  // the server lets a running fetch include what has arrived meanwhile
    | Deliver(uid: Uid, env: Env)
    | FinishFetch(ok: bool)
    | Conclude(fault: Fault)
    | CleanOne(uid: Uid)
    | DoneCleaning
    | Crash

  function KindAt(cfg: Config, raw: Bytes): Kind {
    KindOf(cfg, Literal.Truncate(raw, Literal.MAX_LITERAL))
  }

  /** A fetch is complete when all it asked for was delivered, or taken away by others. */
  predicate Complete(s: System)
    requires s.session.Open? && s.session.phase.Fetching?
  {
    forall u :: u in s.session.phase.snapshot ==>
                  u in s.session.phase.delivered || Key(s.session.validity, u) in s.withdrawn
  }

  predicate Enabled(s: System, e: Event) {
    match e
    case Arrive(uid, _) => 0 < uid && s.uidNext <= uid
    case Withdraw(uid) => uid in s.box
    case NewGeneration(v) => v > s.validity
    case DamageFile(_) => true
    case OpenSession(_) => s.session.Closed?
    case StartFetch => s.session.Open? && s.session.connected && s.session.phase.Ready?
    case TakeIn => s.session.Open? && s.session.connected && s.session.phase.Fetching?
    case Deliver(uid, _) =>
      && s.session.Open? && s.session.connected && s.session.phase.Fetching? && !s.session.phase.halted
      && uid in s.session.phase.snapshot && uid in s.box
    case FinishFetch(ok) =>
      && s.session.Open? && s.session.phase.Fetching?
      && (ok && !s.session.phase.halted ==> s.session.connected && Complete(s))
    case Conclude(_) => s.session.Open? && s.session.phase.Judged?
    case CleanOne(uid) =>
      s.session.Open? && s.session.connected && s.session.phase.Cleaning? && uid in s.session.phase.todo
    case DoneCleaning => s.session.Open? && s.session.phase.Cleaning?
    case Crash => true
  }

  /** A handler call on a delivered message. */
  function AfterDeliver(cfg: Config, s: System, uid: Uid, env: Env): System
    requires Enabled(s, Deliver(uid, env))
  {
    var p := s.session.phase;
    var h := Handle(KindAt(cfg, s.box[uid]), p.tally, uid, env);
    var delivered := if env.cancelled then p.delivered else p.delivered + {uid};
    s.(session := s.session.(phase := p.(delivered := delivered, tally := h.tally, halted := h.err)),
       injected := if h.accepted.Some? then s.injected + multiset{Key(s.session.validity, uid)} else s.injected)
  }

  /** The end of a fetch: the checkpoint, and the session's fate. */
  function AfterConclude(cfg: Config, s: System, fault: Fault): System
    requires Enabled(s, Conclude(fault))
  {
    var p := s.session.phase;
    var safe := SafeUid(s.session.lastUid, p.tally);
    var saved := !Suppressed(p.tally, p.err) && safe > s.session.lastUid && fault == Fine;
    var disk := if saved then Advanced(s.disk, cfg.folder, s.session.validity, safe) else s.disk;
    var session :=
      if p.err then Closed
      else if saved then
        s.session.(lastUid := safe, phase := Cleaning(set u | u in CleanupUids(p.tally, safe)))
      else s.session.(phase := Ready);
    s.(disk := disk, session := session)
  }

  function Next(cfg: Config, s: System, e: Event): System
    requires Enabled(s, e)
  {
    match e
    case Arrive(uid, raw) =>
      s.(box := s.box[uid := raw], uidNext := uid + 1, history := s.history[Key(s.validity, uid) := raw])
    case Withdraw(uid) =>
      s.(box := s.box - {uid}, withdrawn := s.withdrawn + {Key(s.validity, uid)})
    case NewGeneration(v) =>
      s.(validity := v, uidNext := 1, box := map[],
         session := if s.session.Open? then s.session.(connected := false) else Closed)
    case DamageFile(corrupt) => s.(disk := if corrupt then Corrupt else Missing)
    case OpenSession(fault) =>
      if fault == ReadFails then s
      else s.(session := Open(s.validity, Lookup(s.disk, cfg.folder, s.validity), true, Ready))
    case StartFetch =>
      var snapshot := set u | u in s.box && u > s.session.lastUid;
      s.(session := s.session.(phase := Fetching(s.uidNext, snapshot, {}, EMPTY, false)))
    case TakeIn =>
      var late := set u | u in s.box && u > s.session.lastUid;
      var p := s.session.phase;
      s.(session := s.session.(phase := p.(bound := s.uidNext, snapshot := p.snapshot + late)))
    case Deliver(uid, env) => AfterDeliver(cfg, s, uid, env)
    case FinishFetch(ok) =>
      s.(session := s.session.(phase := Judged(s.session.phase.tally, s.session.phase.halted || !ok)))
    case Conclude(fault) => AfterConclude(cfg, s, fault)
    case CleanOne(uid) => s.(box := s.box - {uid})
    case DoneCleaning => s.(session := s.session.(phase := Ready))
    case Crash => s.(session := Closed)
  }

  function Initial(validity: Uid): System {
    System(validity, 1, map[], Missing, Closed, map[], multiset{}, {})
  }

  /* ---- No loss ---- */

  /** A message that need not be fetched any more: injected, not ours, or removed by others. */
  ghost predicate Settled(cfg: Config, s: System, k: Key)
    requires k in s.history
  {
    k in s.injected || KindAt(cfg, s.history[k]).NotOurs? || k in s.withdrawn
  }

  /** Every message of generation v with UID at most w is settled. */
  ghost predicate Covered(cfg: Config, s: System, v: Uid, w: Uid) {
    forall k :: k in s.history && k.validity == v && k.uid <= w ==> Settled(cfg, s, k)
  }

  ghost predicate ServerInv(cfg: Config, s: System) {
    && s.uidNext >= 1
    && (forall u :: u in s.box ==> Key(s.validity, u) in s.history && s.history[Key(s.validity, u)] == s.box[u])
    && (forall k :: k in s.history ==> 0 < k.uid && k.validity <= s.validity)
    && (forall k :: k in s.history && k.validity == s.validity ==>
          k.uid < s.uidNext && (k.uid in s.box || k in s.withdrawn || k in s.injected))
    && (forall k :: k in s.injected ==> k in s.history && KindAt(cfg, s.history[k]).Ours?)
  }

  ghost predicate WatermarkInv(cfg: Config, s: System, v: Uid, w: Uid) {
    v <= s.validity && (v == s.validity ==> w < s.uidNext) && Covered(cfg, s, v, w)
  }

  ghost predicate DiskInv(cfg: Config, s: System) {
    s.disk.Stored? && s.disk.record.folder == cfg.folder ==>
      WatermarkInv(cfg, s, s.disk.record.validity, s.disk.record.lastUid)
  }

  /** What the handler has recorded about the messages it has seen. */
  ghost predicate TallyInv(cfg: Config, s: System, v: Uid, t: Tally, delivered: set<Uid>) {
    && (forall u :: u in t.processed ==> u in delivered && Key(v, u) in s.injected)
    && (forall u :: u in t.skipped ==> u in delivered && Key(v, u) in s.history
                                       && KindAt(cfg, s.history[Key(v, u)]).NotOurs?)
    && (forall u :: u in delivered ==>
          && Key(v, u) in s.history
          && (u in t.processed || u in t.skipped || u == t.failed
              || (KindAt(cfg, s.history[Key(v, u)]).Broken? && 0 < t.decodeFailed <= u)))
  }

  /** Everything the fetch must account for: asked for, or settled before it began. */
  ghost predicate SnapshotInv(cfg: Config, s: System, v: Uid, lastUid: Uid, p: Phase)
    requires p.Fetching?
  {
    && p.delivered <= p.snapshot
    && (forall u :: u in p.snapshot ==> Key(v, u) in s.history && u > lastUid && u < p.bound)
    && (forall k :: k in s.history && k.validity == v && lastUid < k.uid < p.bound ==>
          k.uid in p.snapshot || Settled(cfg, s, k))
    && (v == s.validity ==> p.bound <= s.uidNext)
    && (p.halted || p.tally.failed == 0)
  }

  ghost predicate SessionInv(cfg: Config, s: System) {
    s.session.Open? ==>
      var v, lastUid, p := s.session.validity, s.session.lastUid, s.session.phase;
      && (s.session.connected ==> v == s.validity)
      && WatermarkInv(cfg, s, v, lastUid)
      && match p
         case Ready => true
         case Fetching(_, _, _, _, _) =>
           SnapshotInv(cfg, s, v, lastUid, p) && TallyInv(cfg, s, v, p.tally, p.delivered)
         case Judged(t, err) =>
           && (forall u :: u in t.processed ==> Key(v, u) in s.injected)
           && (!Suppressed(t, err) ==> WatermarkInv(cfg, s, v, SafeUid(lastUid, t)))
         case Cleaning(todo) => forall u :: u in todo ==> Key(v, u) in s.injected
  }

  ghost predicate Inv(cfg: Config, s: System) {
    ServerInv(cfg, s) && DiskInv(cfg, s) && SessionInv(cfg, s)
  }

  /** No gap below what the ceiling lets pass: a message that the fetch asked for, was not
      handed and is still owed has a UID above every recorded UID that the ceiling allows. */
  ghost predicate Gapless(cfg: Config, s: System)
    requires s.session.Open? && s.session.phase.Fetching?
  {
    var v, p := s.session.validity, s.session.phase;
    forall u, d ::
      u in p.snapshot && u !in p.delivered && Key(v, u) in s.history && !Settled(cfg, s, Key(v, u))
      && d in p.tally.processed + p.tally.skipped && Allowed(d, Ceiling(p.tally)) ==>
        d < u
  }

  /** The hypothesis on delivery order: it is needed only where an inject failure ended the
      fetch. */
  ghost predicate Orderly(cfg: Config, s: System, e: Event) {
    Enabled(s, e) && (e.FinishFetch? && s.session.phase.tally.failed > 0 ==> Gapless(cfg, s))
  }

  /** Nothing is forgotten from s to s', and what is new has a UID that was not yet given. */
  ghost predicate Later(s: System, s': System) {
    && (forall k :: k in s.history ==> k in s'.history && s'.history[k] == s.history[k])
    && (forall k :: k in s'.history && k !in s.history ==> k.validity == s.validity && k.uid >= s.uidNext)
    && s.injected <= s'.injected && s.withdrawn <= s'.withdrawn
    && (s.validity < s'.validity || (s.validity == s'.validity && s.uidNext <= s'.uidNext))
  }

  lemma SettledKept(cfg: Config, s: System, s': System)
    requires Later(s, s')
    ensures forall k :: k in s.history && Settled(cfg, s, k) ==> Settled(cfg, s', k)
  {
    hide KindAt;
  }

  lemma WatermarkKept(cfg: Config, s: System, s': System, v: Uid, w: Uid)
    requires WatermarkInv(cfg, s, v, w) && Later(s, s')
    ensures WatermarkInv(cfg, s', v, w)
  {
    SettledKept(cfg, s, s');
    hide Settled;
    forall k | k in s'.history && k.validity == v && k.uid <= w ensures Settled(cfg, s', k) {
      assert k in s.history;
    }
  }

  lemma DiskKept(cfg: Config, s: System, s': System)
    requires DiskInv(cfg, s) && Later(s, s') && s'.disk == s.disk
    ensures DiskInv(cfg, s')
  {
    if s.disk.Stored? && s.disk.record.folder == cfg.folder {
      WatermarkKept(cfg, s, s', s.disk.record.validity, s.disk.record.lastUid);
    }
  }

  lemma SnapshotKept(cfg: Config, s: System, s': System, v: Uid, lastUid: Uid, p: Phase)
    requires p.Fetching? && v <= s.validity && SnapshotInv(cfg, s, v, lastUid, p) && Later(s, s')
    ensures SnapshotInv(cfg, s', v, lastUid, p)
  {
    SettledKept(cfg, s, s');
    hide Settled;
    forall k | k in s'.history && k.validity == v && lastUid < k.uid < p.bound
      ensures k.uid in p.snapshot || Settled(cfg, s', k)
    {
      assert k in s.history;
    }
  }

  lemma TallyKept(cfg: Config, s: System, s': System, v: Uid, t: Tally, delivered: set<Uid>)
    requires TallyInv(cfg, s, v, t, delivered) && Later(s, s')
    ensures TallyInv(cfg, s', v, t, delivered)
  {
    hide KindAt;
  }

  /** A session keeps its invariant while the world moves on, connected or not. */
  lemma SessionKept(cfg: Config, s: System, s': System)
    requires SessionInv(cfg, s) && Later(s, s')
    requires s.session.Open? ==>
               s'.session == s.session.(connected := s'.session.Open? && s'.session.connected) && s'.session.Open?
    requires s'.session.Open? ==>
               s.session.Open? && (s'.session.connected ==> s.session.connected && s'.validity == s.validity)
    ensures SessionInv(cfg, s')
  {
    hide KindAt, Settled, Covered, SnapshotInv, TallyInv;
    if s.session.Open? {
      var v, lastUid, p := s.session.validity, s.session.lastUid, s.session.phase;
      WatermarkKept(cfg, s, s', v, lastUid);
      match p {
        case Ready =>
        case Fetching(_, _, _, _, _) =>
          SnapshotKept(cfg, s, s', v, lastUid, p);
          TallyKept(cfg, s, s', v, p.tally, p.delivered);
        case Judged(t, err) =>
          if !Suppressed(t, err) { WatermarkKept(cfg, s, s', v, SafeUid(lastUid, t)); }
        case Cleaning(todo) =>
      }
    }
  }

  lemma ArrivalServer(cfg: Config, s: System, e: Event)
    requires ServerInv(cfg, s) && Enabled(s, e) && e.Arrive?
    ensures ServerInv(cfg, Next(cfg, s, e)) && Later(s, Next(cfg, s, e))
  {
    hide KindAt;
    assert Key(s.validity, e.uid) !in s.history;
  }

  lemma RemovalServer(cfg: Config, s: System, e: Event)
    requires ServerInv(cfg, s) && Enabled(s, e)
    requires e.Withdraw? || e.NewGeneration? || e.DamageFile?
    ensures ServerInv(cfg, Next(cfg, s, e)) && Later(s, Next(cfg, s, e))
  {
    hide KindAt;
    var s' := Next(cfg, s, e);
    assert s'.history == s.history && s'.injected == s.injected;
  }

  /** The steps of the world: arrivals, removals by others, a new generation. */
  lemma WorldKeeps(cfg: Config, s: System, e: Event)
    requires Inv(cfg, s) && Enabled(s, e)
    requires e.Arrive? || e.Withdraw? || e.NewGeneration? || e.DamageFile?
    ensures Inv(cfg, Next(cfg, s, e))
  {
    hide KindAt, SessionInv, ServerInv, Later, WatermarkInv;
    var s' := Next(cfg, s, e);
    if e.Arrive? { ArrivalServer(cfg, s, e); } else { RemovalServer(cfg, s, e); }
    SessionKept(cfg, s, s');
    if !e.DamageFile? { DiskKept(cfg, s, s'); }
  }

  lemma OpenKeeps(cfg: Config, s: System, e: Event)
    requires Inv(cfg, s) && Enabled(s, e) && e.OpenSession?
    ensures Inv(cfg, Next(cfg, s, e))
  {
    hide KindAt, Settled;
    var s' := Next(cfg, s, e);
    assert Later(s, s');
    DiskKept(cfg, s, s');
    var w := Lookup(s.disk, cfg.folder, s.validity);
    assert WatermarkInv(cfg, s, s.validity, w);
    WatermarkKept(cfg, s, s', s.validity, w);
  }

  lemma StartKeeps(cfg: Config, s: System, e: Event)
    requires Inv(cfg, s) && Enabled(s, e) && e.StartFetch?
    ensures Inv(cfg, Next(cfg, s, e))
  {
    hide KindAt;
    var s' := Next(cfg, s, e);
    assert Later(s, s');
    DiskKept(cfg, s, s');
    var v, lastUid, p := s'.session.validity, s'.session.lastUid, s'.session.phase;
    WatermarkKept(cfg, s, s', v, lastUid);
    assert SnapshotInv(cfg, s', v, lastUid, p);
    assert TallyInv(cfg, s', v, p.tally, p.delivered);
  }

  lemma TakeInKeeps(cfg: Config, s: System, e: Event)
    requires Inv(cfg, s) && Enabled(s, e) && e.TakeIn?
    ensures Inv(cfg, Next(cfg, s, e))
  {
    hide KindAt, Settled, TallyInv, Covered;
    var s' := Next(cfg, s, e);
    var v, lastUid, p, p' := s.session.validity, s.session.lastUid, s.session.phase, s'.session.phase;
    assert Later(s, s');
    SettledKept(cfg, s, s');
    ServerKept(cfg, s, s');
    DiskKept(cfg, s, s');
    WatermarkKept(cfg, s, s', v, lastUid);
    TallyKept(cfg, s, s', v, p.tally, p.delivered);
    hide WatermarkInv, DiskInv;
    forall k | k in s'.history && k.validity == v && lastUid < k.uid < p'.bound
      ensures k.uid in p'.snapshot || Settled(cfg, s', k)
    {
      assert k == Key(s.validity, k.uid);
      if k.uid !in s.box { Gone(cfg, s, k); }
    }
    assert SnapshotInv(cfg, s', v, lastUid, p');
  }

  /** A message of the current generation that is not in the box is settled. */
  lemma Gone(cfg: Config, s: System, k: Key)
    requires ServerInv(cfg, s) && k in s.history && k.validity == s.validity && k.uid !in s.box
    ensures Settled(cfg, s, k)
  {
    hide KindAt;
  }

  /** Cleanup takes away only what was injected. */
  lemma CleanKeeps(cfg: Config, s: System, e: Event)
    requires Inv(cfg, s) && Enabled(s, e) && e.CleanOne?
    ensures Inv(cfg, Next(cfg, s, e))
  {
    hide KindAt, Settled, SnapshotInv, TallyInv, Covered, WatermarkInv;
    var s' := Next(cfg, s, e);
    assert Later(s, s');
    DiskKept(cfg, s, s');
    SessionKept(cfg, s, s');
    hide DiskInv, Later;
    assert Key(s.validity, e.uid) in s.injected;
    assert ServerInv(cfg, s');
  }

  lemma StopKeeps(cfg: Config, s: System, e: Event)
    requires Inv(cfg, s) && Enabled(s, e) && (e.DoneCleaning? || e.Crash?)
    ensures Inv(cfg, Next(cfg, s, e))
  {
    hide KindAt, Settled, SnapshotInv, TallyInv, Covered, ServerInv;
    var s' := Next(cfg, s, e);
    assert Later(s, s');
    DiskKept(cfg, s, s');
    assert ServerInv(cfg, s') by { ServerKept(cfg, s, s'); }
    if e.DoneCleaning? { WatermarkKept(cfg, s, s', s.session.validity, s.session.lastUid); }
  }

  lemma ServerKept(cfg: Config, s: System, s': System)
    requires ServerInv(cfg, s)
    requires s' == s.(disk := s'.disk, session := s'.session)
    ensures ServerInv(cfg, s')
  {
    hide KindAt;
  }

  lemma DeliverServer(cfg: Config, s: System, e: Event)
    requires Inv(cfg, s) && Enabled(s, e) && e.Deliver?
    ensures Later(s, Next(cfg, s, e)) && ServerInv(cfg, Next(cfg, s, e))
  {
    hide KindAt, Settled, SnapshotInv, TallyInv, Covered, WatermarkInv;
    var s' := Next(cfg, s, e);
    assert s.history[Key(s.session.validity, e.uid)] == s.box[e.uid];
  }

  /** The tally's account of a message, and of those before it, after one handler call. */
  lemma HandleKeepsTally(cfg: Config, s: System, v: Uid, t: Tally, delivered: set<Uid>, uid: Uid, env: Env, raw: Bytes)
    requires TallyInv(cfg, s, v, t, delivered) && t.failed == 0
    requires Key(v, uid) in s.history && s.history[Key(v, uid)] == raw
    requires var h := Handle(KindAt(cfg, raw), t, uid, env); h.accepted.Some? ==> Key(v, uid) in s.injected
    requires uid > 0 && 0 !in delivered
    ensures var h := Handle(KindAt(cfg, raw), t, uid, env);
            TallyInv(cfg, s, v, h.tally, if env.cancelled then delivered else delivered + {uid})
  {
    hide KindAt;
  }

  lemma DeliverTally(cfg: Config, s: System, e: Event)
    requires Inv(cfg, s) && Enabled(s, e) && e.Deliver?
    ensures var s' := Next(cfg, s, e);
            TallyInv(cfg, s', s.session.validity, s'.session.phase.tally, s'.session.phase.delivered)
  {
    hide KindAt, Settled, Covered, WatermarkInv, TallyInv, DiskInv;
    var s' := Next(cfg, s, e);
    var v, p := s.session.validity, s.session.phase;
    DeliverServer(cfg, s, e);
    TallyKept(cfg, s, s', v, p.tally, p.delivered);
    HandleKeepsTally(cfg, s', v, p.tally, p.delivered, e.uid, e.env, s.box[e.uid]);
  }

  /** A handler call: what it injects, skips or refuses is recorded. */
  lemma DeliverKeeps(cfg: Config, s: System, e: Event)
    requires Inv(cfg, s) && Enabled(s, e) && e.Deliver?
    ensures Inv(cfg, Next(cfg, s, e))
  {
    hide KindAt, Settled, Covered, WatermarkInv, TallyInv, ServerInv, Later;
    var s' := Next(cfg, s, e);
    var v, lastUid, p := s.session.validity, s.session.lastUid, s.session.phase;
    DeliverServer(cfg, s, e);
    DeliverTally(cfg, s, e);
    DiskKept(cfg, s, s');
    WatermarkKept(cfg, s, s', v, lastUid);
    SnapshotKept(cfg, s, s', v, lastUid, p);
  }

  /** All that a fetch needs for its watermark to be sound: whatever it did not see at or below
      the watermark is settled. */
  lemma WatermarkIsSound(cfg: Config, s: System)
    requires Inv(cfg, s) && s.session.Open? && s.session.phase.Fetching?
    requires var safe := SafeUid(s.session.lastUid, s.session.phase.tally);
             forall u :: u in s.session.phase.snapshot && u <= safe ==>
               u in s.session.phase.delivered || Settled(cfg, s, Key(s.session.validity, u))
    ensures WatermarkInv(cfg, s, s.session.validity, SafeUid(s.session.lastUid, s.session.phase.tally))
  {
    hide KindAt, Watermark;
    var v, lastUid, p := s.session.validity, s.session.lastUid, s.session.phase;
    var t := p.tally;
    var safe := SafeUid(lastUid, t);
    assert safe == lastUid || safe in t.processed || safe in t.skipped;
    forall k | k in s.history && k.validity == v && k.uid <= safe ensures Settled(cfg, s, k) {
      if k.uid > lastUid {
        assert safe < p.bound;
        assert k == Key(v, k.uid);
      }
    }
  }

  /** A completed fetch has no gap, and neither has one that failed while delivery went up. */
  lemma NoGapIsSound(cfg: Config, s: System)
    requires Inv(cfg, s) && s.session.Open? && s.session.phase.Fetching? && Gapless(cfg, s)
    ensures WatermarkInv(cfg, s, s.session.validity, SafeUid(s.session.lastUid, s.session.phase.tally))
  {
    hide KindAt, Settled, Watermark;
    WatermarkIsSound(cfg, s);
  }

  lemma CompleteIsGapless(cfg: Config, s: System)
    requires s.session.Open? && s.session.phase.Fetching? && Complete(s)
    ensures Gapless(cfg, s)
  {
    hide KindAt;
  }

  lemma FinishKeeps(cfg: Config, s: System, e: Event)
    requires Inv(cfg, s) && Orderly(cfg, s, e) && e.FinishFetch?
    ensures Inv(cfg, Next(cfg, s, e))
  {
    hide KindAt, Watermark;
    var s' := Next(cfg, s, e);
    var p := s.session.phase;
    var t, err := p.tally, s'.session.phase.err;
    assert Later(s, s');
    DiskKept(cfg, s, s');
    WatermarkKept(cfg, s, s', s.session.validity, s.session.lastUid);
    if !Suppressed(t, err) {
      if t.failed == 0 { CompleteIsGapless(cfg, s); }
      NoGapIsSound(cfg, s);
      WatermarkKept(cfg, s, s', s.session.validity, SafeUid(s.session.lastUid, t));
    }
  }

  lemma ConcludeKeeps(cfg: Config, s: System, e: Event)
    requires Inv(cfg, s) && Enabled(s, e) && e.Conclude?
    ensures Inv(cfg, Next(cfg, s, e))
  {
    hide KindAt, Watermark, Settled;
    var s' := Next(cfg, s, e);
    assert Later(s, s');
    if s'.disk == s.disk {
      DiskKept(cfg, s, s');
    } else {
      var old' := Loaded(s.disk);
      var r := s'.disk.record;
      assert r == old' || r.lastUid == SafeUid(s.session.lastUid, s.session.phase.tally);
      WatermarkKept(cfg, s, s', r.validity, r.lastUid);
    }
    WatermarkKept(cfg, s, s', s.session.validity, s.session.lastUid);
    if s'.session.Open? { WatermarkKept(cfg, s, s', s'.session.validity, s'.session.lastUid); }
  }

  lemma StepKeeps(cfg: Config, s: System, e: Event)
    requires Inv(cfg, s) && Orderly(cfg, s, e)
    ensures Inv(cfg, Next(cfg, s, e))
  {
    hide Inv, Next, Enabled, Gapless;
    match e {
      case Arrive(_, _) => WorldKeeps(cfg, s, e);
      case Withdraw(_) => WorldKeeps(cfg, s, e);
      case NewGeneration(_) => WorldKeeps(cfg, s, e);
      case DamageFile(_) => WorldKeeps(cfg, s, e);
      case Deliver(_, _) => DeliverKeeps(cfg, s, e);
      case FinishFetch(_) => FinishKeeps(cfg, s, e);
      case Conclude(_) => ConcludeKeeps(cfg, s, e);
      case OpenSession(_) => OpenKeeps(cfg, s, e);
      case StartFetch => StartKeeps(cfg, s, e);
      case TakeIn => TakeInKeeps(cfg, s, e);
      case CleanOne(_) => CleanKeeps(cfg, s, e);
      case _ => StopKeeps(cfg, s, e);
    }
  }

  /** Every event is enabled where it happens. */
  predicate Possible(cfg: Config, s: System, es: seq<Event>)
    decreases |es|
  {
    es == [] || (Enabled(s, es[0]) && Possible(cfg, Next(cfg, s, es[0]), es[1..]))
  }

  function Play(cfg: Config, s: System, es: seq<Event>): System
    requires Possible(cfg, s, es)
    decreases |es|
  {
    if es == [] then s else Play(cfg, Next(cfg, s, es[0]), es[1..])
  }

  lemma PlayFirst(cfg: Config, s: System, e: Event, es: seq<Event>)
    requires Enabled(s, e)
    ensures Possible(cfg, s, [e] + es) <==> Possible(cfg, Next(cfg, s, e), es)
    ensures Possible(cfg, s, [e] + es) ==> Play(cfg, s, [e] + es) == Play(cfg, Next(cfg, s, e), es)
  {
    hide Next, Enabled;
    assert ([e] + es)[1..] == es;
  }

  lemma PlayOne(cfg: Config, s: System, e: Event)
    requires Enabled(s, e)
    ensures Possible(cfg, s, [e]) && Play(cfg, s, [e]) == Next(cfg, s, e)
  {
    hide Next, Enabled;
    PlayFirst(cfg, s, e, []);
    assert [e] + [] == [e];
  }

  lemma {:induction false} PlayConcat(cfg: Config, s: System, a: seq<Event>, b: seq<Event>)
    ensures Possible(cfg, s, a + b) <==> Possible(cfg, s, a) && Possible(cfg, Play(cfg, s, a), b)
    ensures Possible(cfg, s, a + b) ==> Play(cfg, s, a + b) == Play(cfg, Play(cfg, s, a), b)
    decreases |a|
  {
    hide Next, Enabled;
    if a == [] {
      assert a + b == b;
    } else {
      assert (a + b)[1..] == a[1..] + b;
      if Enabled(s, a[0]) { PlayConcat(cfg, Next(cfg, s, a[0]), a[1..], b); }
    }
  }

  /** A possible run in which inject failures end fetches without a gap. */
  ghost predicate IsRun(cfg: Config, s: System, es: seq<Event>)
    decreases |es|
  {
    es == [] || (Orderly(cfg, s, es[0]) && IsRun(cfg, Next(cfg, s, es[0]), es[1..]))
  }

  lemma {:induction false} RunKeeps(cfg: Config, s: System, es: seq<Event>)
    requires Inv(cfg, s) && IsRun(cfg, s, es)
    ensures Possible(cfg, s, es) && Inv(cfg, Play(cfg, s, es))
    decreases |es|
  {
    hide Inv, Next;
    if es != [] {
      StepKeeps(cfg, s, es[0]);
      RunKeeps(cfg, Next(cfg, s, es[0]), es[1..]);
    }
  }
}
