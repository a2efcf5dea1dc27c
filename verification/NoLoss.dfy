/** The promise of the checkpoint over every run, the order of delivery that it rests on, and
    the run that breaks it without that order. */
module NoLoss {
  import opened Octets
  import opened Checkpoint
  import opened Inbound
  import opened Protocol
  import Envelope
  import Literal
  import MailHeader
  import Truncation

  /** Under a watermark that is on disk or in memory. */
  predicate Passed(cfg: Config, s: System, k: Key) {
    || (s.disk.Stored? && Keyed(s.disk.record, cfg.folder, k.validity) && k.uid <= s.disk.record.lastUid)
    || (s.session.Open? && k.validity == s.session.validity && k.uid <= s.session.lastUid)
  }

  /** Over every run, whatever arrives, fails, crashes or changes generation: a message that a
      checkpoint has passed was injected, is not ours, or was removed by another client; one
      that is ours but broken is never passed; and a message that left the mailbox of the
      current generation was injected or removed by another client. */
  lemma NothingIsLost(cfg: Config, validity: Uid, es: seq<Event>)
    requires IsRun(cfg, Initial(validity), es)
    ensures Possible(cfg, Initial(validity), es)
    ensures var s := Play(cfg, Initial(validity), es);
            && (forall k :: k in s.history && Passed(cfg, s, k) ==>
                  k in s.injected || k in s.withdrawn || KindAt(cfg, s.history[k]).NotOurs?)
            && (forall k :: k in s.history && Passed(cfg, s, k) && KindAt(cfg, s.history[k]).Broken? ==> k in s.withdrawn)
            && (forall k :: k in s.history && k.validity == s.validity && k.uid !in s.box ==>
                  k in s.injected || k in s.withdrawn)
  {
    hide KindAt;
    InitialInv(cfg, validity);
    RunKeeps(cfg, Initial(validity), es);
    hide Initial, Play, IsRun, Possible;
    var s := Play(cfg, Initial(validity), es);
    forall k | k in s.history && Passed(cfg, s, k) ensures Settled(cfg, s, k) {
    }
  }

  lemma InitialInv(cfg: Config, validity: Uid)
    ensures Inv(cfg, Initial(validity))
  {
  }

  /** For mail whose header fits the budget, the verdict on the fetched literal that this rests
      on is the verdict on the whole message, wherever truncation is invisible. */
  lemma KindOfWhole(cfg: Config, raw: Bytes)
    requires MailHeader.HasBlankLine(Literal.Truncate(raw, Literal.MAX_HEADER))
    requires || |raw| <= Literal.MAX_LITERAL || MailHeader.Read(raw).Some?
             || (!Truncation.Hides(raw, Literal.MAX_LITERAL) && !Truncation.Invents(raw, Literal.MAX_LITERAL))
    ensures KindAt(cfg, raw) == KindOf(cfg, raw)
  {
    hide Envelope.Decode, Truncation.Hides, Truncation.Invents;
    Truncation.TruncationInvisibleIff(cfg.lib, raw);
  }

  /** The watermark of a fetch, whatever ended it, is sound exactly if delivery left no gap:
      every recorded UID that the ceiling allows lies below every message that is still owed. */
  lemma WatermarkSoundIffGapless(cfg: Config, s: System)
    requires Inv(cfg, s) && s.session.Open? && s.session.phase.Fetching?
    ensures Covered(cfg, s, s.session.validity, SafeUid(s.session.lastUid, s.session.phase.tally)) <==> Gapless(cfg, s)
  {
    hide KindAt, Settled, Watermark;
    if Gapless(cfg, s) { NoGapIsSound(cfg, s); }
  }

  /** Ascending delivery leaves no gap. */
  lemma AscendingIsGapless(cfg: Config, s: System)
    requires Inv(cfg, s) && s.session.Open? && s.session.phase.Fetching?
    requires var p := s.session.phase;
             forall u, d :: u in p.snapshot && u !in p.delivered && d in p.delivered ==> d < u
    ensures Gapless(cfg, s)
  {
    hide KindAt, Settled;
  }

  /* ---- Without the hypothesis ---- */

  const TAKEN := Env(false, true)
  const REFUSED := Env(false, false)

  /** Four messages; the server delivers 8, which is taken, and then 10, which the pipe
      refuses, before 5 and 7. */
  function Gap(raw: Bytes): (es: seq<Event>)
    ensures |es| == 10
  {
    [Arrive(5, raw), Arrive(7, raw), Arrive(8, raw), Arrive(10, raw), OpenSession(Fine), StartFetch,
     Deliver(8, TAKEN), Deliver(10, REFUSED), FinishFetch(false), Conclude(Fine)]
  }

  /** A list of states that the events lead through. */
  predicate Traces(cfg: Config, states: seq<System>, es: seq<Event>) {
    && |states| == |es| + 1
    && forall i :: 0 <= i < |es| ==> Enabled(states[i], es[i]) && states[i + 1] == Next(cfg, states[i], es[i])
  }

  lemma {:induction false} TraceIsPlay(cfg: Config, states: seq<System>, es: seq<Event>)
    requires Traces(cfg, states, es)
    ensures Possible(cfg, states[0], es) && Play(cfg, states[0], es) == states[|es|]
    decreases |es|
  {
    hide Next, Enabled;
    if es != [] { TraceIsPlay(cfg, states[1..], es[1..]); }
  }

  /** The box and history after the four arrivals. */
  function GapBox(raw: Bytes): map<Uid, Bytes> { map[5 := raw, 7 := raw, 8 := raw, 10 := raw] }

  lemma GapArrivals(cfg: Config, v: Uid, raw: Bytes) returns (s: System)
    ensures Possible(cfg, Initial(v), Gap(raw)[..5]) && s == Play(cfg, Initial(v), Gap(raw)[..5])
    ensures s.box == GapBox(raw) && s.validity == v && s.disk == Missing && s.injected == multiset{}
    ensures s.withdrawn == {} && s.session == Open(v, 0, true, Ready)
    ensures Key(v, 5) in s.history && s.history[Key(v, 5)] == raw
  {
    var s0 := Initial(v);
    var s1 := Next(cfg, s0, Arrive(5, raw));
    var s2 := Next(cfg, s1, Arrive(7, raw));
    var s3 := Next(cfg, s2, Arrive(8, raw));
    var s4 := Next(cfg, s3, Arrive(10, raw));
    s := Next(cfg, s4, OpenSession(Fine));
    TraceIsPlay(cfg, [s0, s1, s2, s3, s4, s], Gap(raw)[..5]);
  }

  /** The fetch of this run, with what it has delivered and recorded. */
  function GapSession(v: Uid, bound: nat, delivered: set<Uid>, t: Tally, halted: bool): Session {
    Open(v, 0, true, Fetching(bound, {5, 7, 8, 10}, delivered, t, halted))
  }

  lemma GapStart(cfg: Config, v: Uid, raw: Bytes, s: System) returns (s1: System)
    requires s.box == GapBox(raw) && s.session == Open(v, 0, true, Ready)
    ensures Enabled(s, StartFetch) && s1 == Next(cfg, s, StartFetch)
    ensures s1 == s.(session := GapSession(v, s.uidNext, {}, EMPTY, false))
  {
    s1 := Next(cfg, s, StartFetch);
    assert (set u | u in s.box && u > 0) == {5, 7, 8, 10};
  }

  lemma GapTake(cfg: Config, v: Uid, raw: Bytes, s: System, bound: nat) returns (s1: System)
    requires KindAt(cfg, raw).Ours?
    requires s.box == GapBox(raw) && s.injected == multiset{}
    requires s.session == GapSession(v, bound, {}, EMPTY, false)
    ensures Enabled(s, Deliver(8, TAKEN)) && s1 == Next(cfg, s, Deliver(8, TAKEN))
    ensures s1 == s.(session := GapSession(v, bound, {8}, Tally([8], [], 0, 0), false), injected := multiset{Key(v, 8)})
  {
    hide KindAt;
    s1 := Next(cfg, s, Deliver(8, TAKEN));
    var none: seq<Uid> := [];
    assert none + [8] == [8];
    var nobody: set<Uid> := {};
    assert nobody + {8} == {8};
    assert s.injected + multiset{Key(v, 8)} == multiset{Key(v, 8)};
  }

  lemma GapRefuse(cfg: Config, v: Uid, raw: Bytes, s: System, bound: nat) returns (s1: System)
    requires KindAt(cfg, raw).Ours?
    requires s.box == GapBox(raw)
    requires s.session == GapSession(v, bound, {8}, Tally([8], [], 0, 0), false)
    ensures Enabled(s, Deliver(10, REFUSED)) && s1 == Next(cfg, s, Deliver(10, REFUSED))
    ensures s1 == s.(session := GapSession(v, bound, {8, 10}, Tally([8], [], 10, 0), true))
  {
    hide KindAt;
    s1 := Next(cfg, s, Deliver(10, REFUSED));
    var eight: set<Uid> := {8};
    assert eight + {10} == {8, 10};
  }

  lemma GapSafe()
    ensures SafeUid(0, Tally([8], [], 10, 0)) == 8
  {
    var uids: seq<Uid> := [8];
    assert uids + [] == uids;
    assert 8 in uids;
  }

  lemma GapConclude(cfg: Config, v: Uid, s: System) returns (s1: System, t: System)
    requires s.disk == Missing && s.session.Open? && s.session == Open(v, 0, true, s.session.phase)
    requires s.session.phase.Fetching? && s.session.phase.halted
    requires s.session.phase.tally == Tally([8], [], 10, 0)
    ensures Enabled(s, FinishFetch(false)) && s1 == Next(cfg, s, FinishFetch(false))
    ensures Enabled(s1, Conclude(Fine)) && t == Next(cfg, s1, Conclude(Fine))
    ensures t == s.(disk := Stored(Record(cfg.folder, v, 8)), session := Closed)
  {
    hide Watermark;
    GapSafe();
    s1 := Next(cfg, s, FinishFetch(false));
    t := Next(cfg, s1, Conclude(Fine));
  }

  lemma GapFetch(cfg: Config, v: Uid, raw: Bytes, s: System) returns (t: System)
    requires KindAt(cfg, raw).Ours?
    requires s.box == GapBox(raw) && s.validity == v && s.disk == Missing && s.injected == multiset{}
    requires s.withdrawn == {} && s.session == Open(v, 0, true, Ready)
    ensures Possible(cfg, s, Gap(raw)[5..]) && t == Play(cfg, s, Gap(raw)[5..])
    ensures t.disk == Stored(Record(cfg.folder, v, 8)) && t.session == Closed
    ensures t.history == s.history && t.withdrawn == {} && t.injected == multiset{Key(v, 8)}
  {
    hide Next, Enabled, KindAt, GapBox;
    var s1 := GapStart(cfg, v, raw, s);
    var s2 := GapTake(cfg, v, raw, s1, s.uidNext);
    var s3 := GapRefuse(cfg, v, raw, s2, s.uidNext);
    var s4;
    s4, t := GapConclude(cfg, v, s3);
    TraceIsPlay(cfg, [s, s1, s2, s3, s4, t], Gap(raw)[5..]);
  }

  /** The unconditional promise is false: this run leaves a checkpoint of 8 while message 5 was
      neither injected nor removed. */
  lemma GapLosesMail(cfg: Config, v: Uid, raw: Bytes)
    requires KindAt(cfg, raw).Ours?
    ensures Possible(cfg, Initial(v), Gap(raw))
    ensures var s := Play(cfg, Initial(v), Gap(raw));
            && s.disk == Stored(Record(cfg.folder, v, 8))
            && Key(v, 5) in s.history && Passed(cfg, s, Key(v, 5)) && !Settled(cfg, s, Key(v, 5))
  {
    hide KindAt, Next, Initial, Gap;
    var s := GapArrivals(cfg, v, raw);
    var t := GapFetch(cfg, v, raw, s);
    PlayConcat(cfg, Initial(v), Gap(raw)[..5], Gap(raw)[5..]);
    assert Gap(raw)[..5] + Gap(raw)[5..] == Gap(raw) by { assert |Gap(raw)| >= 5; }
  }
}
